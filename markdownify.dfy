/** The help-text escape pass `markdownify` (usage/printer.go): one left-to-right
    pass over the bytes with a one-byte lookback `last` and an "inside a code
    block" flag. Angle brackets become backticks, ''' becomes a ``` fence, a
    doubled backslash becomes one, and asterisk pairs vanish inside code.

    Scan is the specification of the pass, written on positions of the input;
    the method Markdownify is the Go loop itself over a bytes.Buffer, proved
    to produce what Scan says. */
module Markdown {
  import opened Runes
  import opened Bytes

  const Escape: Byte := '\\' as int
  const Quote: Byte := '\'' as int
  const Star: Byte := '*' as int
  const LessThan: Byte := '<' as int
  const GreaterThan: Byte := '>' as int
  const Backtick: Byte := '`' as int

  const Fence: seq<Byte> := Ascii("```")
  const ShellHint: seq<Byte> := Ascii("shell")
  const TripleQuote: seq<Byte> := Ascii("'''")

  /** How the scanner gives back look-ahead bytes that it does not use.
      AsWritten is what printer.go does: a bytes.Buffer honours only one
      UnreadByte after a read, and the `*` branch unreads the output buffer,
      so one look-ahead byte is lost. Rewinding gives back every unused
      look-ahead byte, as the code evidently intends. */
  datatype Reading = AsWritten | Rewinding

  function Min(a: nat, b: nat): nat {
    if a <= b then a else b
  }

  /** The rune starting at p is white space (unicode.IsSpace of ReadRune's result). */
  predicate SpaceAt(s: seq<Byte>, p: nat) {
    p < |s| && IsSpace(DecodeRune(s[p..]).rune)
  }

  /** Position right after the look-ahead that did not form what was looked for:
      the bytes after the current one are given back, or, as written, at most
      the last of them. */
  function Resume(s: seq<Byte>, p: nat, mode: Reading): (q: nat)
    requires p <= |s|
    ensures p <= q <= |s|
  {
    if mode == Rewinding then p else Min(p + 1, |s|)
  }

  /** One turn of the loop: what it writes, where reading resumes, and the
      new lookback byte and code-block flag. */
  datatype Move = Move(out: seq<Byte>, next: nat, last: Byte, inCode: bool)

  /** The turn of the loop that starts by reading s[pos]. */
  function Step(s: seq<Byte>, pos: nat, last: Byte, inCode: bool, mode: Reading): (m: Move)
    requires pos < |s|
    ensures pos < m.next <= |s|
  {
    var b, p := s[pos], pos + 1;
    if b == LessThan || b == GreaterThan then
      Move(if last != Escape && !inCode then [Backtick] else [b], p, b, inCode)
    else if b == Quote then
      if p + 1 < |s| && s[p] == Quote && s[p + 1] == Quote then
        Move(Fence + (if !inCode && SpaceAt(s, p + 2) then ShellHint else []), p + 2, b, !inCode)
      else
        Move([b], Resume(s, p, mode), b, inCode)
    else if b == Star && inCode then
      if p < |s| && s[p] == Star then Move([], p + 1, b, inCode)
      else Move([b], Resume(s, p, mode), b, inCode)
    else if b == Escape then
      if last == Escape then Move([Escape], p, 0, inCode)
      else Move([], p, b, inCode)
    else
      Move([b], p, b, inCode)
  }

  /** The output for s[pos..], given the lookback byte and the code-block flag.
      Only a ''' fence (three bytes in, at most eight out) makes it longer
      than its input. */
  function Scan(s: seq<Byte>, pos: nat, last: Byte, inCode: bool, mode: Reading): (r: seq<Byte>)
    requires pos <= |s|
    ensures |r| <= 3 * (|s| - pos)
    decreases |s| - pos
  {
    if pos == |s| then []
    else
      var m := Step(s, pos, last, inCode, mode);
      m.out + Scan(s, m.next, m.last, m.inCode, mode)
  }

  /** What markdownify returns for the text s. */
  function MarkdownifyText(s: seq<Byte>): (r: seq<Byte>)
    ensures |r| <= 3 * |s|
  {
    Scan(s, 0, 0, false, AsWritten)
  }

  /** Without a quote there is no fence, and no byte is written for more
      than one read. */
  lemma {:induction false} ScanWithoutQuotes(s: seq<Byte>, pos: nat, last: Byte, inCode: bool, mode: Reading)
    requires pos <= |s|
    ensures (forall i | pos <= i < |s| :: s[i] != Quote) ==> |Scan(s, pos, last, inCode, mode)| <= |s| - pos
    decreases |s| - pos
  {
    if pos < |s| {
      var m := Step(s, pos, last, inCode, mode);
      ScanWithoutQuotes(s, m.next, m.last, m.inCode, mode);
    }
  }

  /** The pass with every unused look-ahead byte given back. */
  function MarkdownifyRewinding(s: seq<Byte>): seq<Byte> {
    Scan(s, 0, 0, false, Rewinding)
  }
  /** The bytes the pass treats specially. */
  predicate Special(b: Byte) {
    b == LessThan || b == GreaterThan || b == Quote || b == Star || b == Escape
  }

  /** Text with none of < > ' * \ passes through unchanged, in or out of code. */
  lemma {:induction false} ScanPlain(s: seq<Byte>, pos: nat, last: Byte, inCode: bool, mode: Reading)
    requires pos <= |s|
    requires forall i | pos <= i < |s| :: !Special(s[i])
    ensures Scan(s, pos, last, inCode, mode) == s[pos..]
    decreases |s| - pos
  {
    if pos < |s| {
      assert Step(s, pos, last, inCode, mode) == Move([s[pos]], pos + 1, s[pos], inCode);
      ScanPlain(s, pos + 1, s[pos], inCode, mode);
      assert s[pos..] == [s[pos]] + s[pos + 1..];
    }
  }

  lemma MarkdownifyPlain(s: seq<Byte>)
    requires forall i | 0 <= i < |s| :: !Special(s[i])
    ensures MarkdownifyText(s) == s
  {
    ScanPlain(s, 0, 0, false, AsWritten);
  }

  /** s with every angle bracket replaced by a backtick. */
  function Backticked(s: seq<Byte>): (r: seq<Byte>)
    ensures |r| == |s|
  {
    seq(|s|, i requires 0 <= i < |s| => if s[i] == LessThan || s[i] == GreaterThan then Backtick else s[i])
  }

  /** Outside code, with no quote, star or backslash about, every angle
      bracket becomes a backtick and nothing else changes. */
  lemma {:induction false} ScanAngles(s: seq<Byte>, pos: nat, last: Byte, mode: Reading)
    requires pos <= |s| && last != Escape
    requires forall i | pos <= i < |s| :: s[i] != Quote && s[i] != Star && s[i] != Escape
    ensures Scan(s, pos, last, false, mode) == Backticked(s[pos..])
    decreases |s| - pos
  {
    if pos < |s| {
      ScanAngles(s, pos + 1, s[pos], mode);
      assert Backticked(s[pos..]) == Backticked(s[pos..pos + 1]) + Backticked(s[pos + 1..]);
    }
  }

  lemma MarkdownifyAngles(s: seq<Byte>)
    requires forall i | 0 <= i < |s| :: s[i] != Quote && s[i] != Star && s[i] != Escape
    ensures MarkdownifyText(s) == Backticked(s)
  {
    ScanAngles(s, 0, 0, AsWritten);
  }

  /** A backslash right before an angle bracket is dropped and the bracket is
      written as it is, in or out of code. */
  lemma EscapedAngle(s: seq<Byte>, pos: nat, last: Byte, inCode: bool, mode: Reading)
    requires pos + 1 < |s| && s[pos] == Escape && last != Escape
    requires s[pos + 1] == LessThan || s[pos + 1] == GreaterThan
    ensures Scan(s, pos, last, inCode, mode) == [s[pos + 1]] + Scan(s, pos + 2, s[pos + 1], inCode, mode)
  {
    LoneEscape(s, pos, last, inCode, mode);
  }

  /** n copies of the byte b. */
  function Repeat(b: Byte, n: nat): (r: seq<Byte>)
    ensures |r| == n && forall i | 0 <= i < n :: r[i] == b
  {
    if n == 0 then [] else [b] + Repeat(b, n - 1)
  }

  /** A backslash not preceded by one writes nothing and becomes the lookback. */
  lemma LoneEscape(s: seq<Byte>, pos: nat, last: Byte, inCode: bool, mode: Reading)
    requires pos < |s| && s[pos] == Escape && last != Escape
    ensures Scan(s, pos, last, inCode, mode) == Scan(s, pos + 1, Escape, inCode, mode)
  {
    assert Step(s, pos, last, inCode, mode) == Move([], pos + 1, Escape, inCode);
  }

  /** Two backslashes in a row (the first not preceded by one) write one
      backslash and clear the lookback. */
  lemma EscapePair(s: seq<Byte>, pos: nat, last: Byte, inCode: bool, mode: Reading)
    requires pos + 2 <= |s| && s[pos] == Escape && s[pos + 1] == Escape && last != Escape
    ensures Scan(s, pos, last, inCode, mode) == [Escape] + Scan(s, pos + 2, 0, inCode, mode)
  {
    LoneEscape(s, pos, last, inCode, mode);
  }

  /** One more leading pair of backslashes writes one more backslash. */
  lemma PairPrefix(s: seq<Byte>, pos: nat, n: nat, last: Byte, inCode: bool, mode: Reading, tail: seq<Byte>)
    requires 1 <= n && pos + 2 <= |s| && s[pos] == Escape && s[pos + 1] == Escape && last != Escape
    requires Scan(s, pos + 2, 0, inCode, mode) == Repeat(Escape, n - 1) + tail
    ensures Scan(s, pos, last, inCode, mode) == Repeat(Escape, n) + tail
  {
    EscapePair(s, pos, last, inCode, mode);
    Associative([Escape], Repeat(Escape, n - 1), tail);
  }

  /** 2n backslashes in a row (not preceded by one) write n of them. */
  lemma {:induction false} BackslashPairs(s: seq<Byte>, pos: nat, n: nat, last: Byte, inCode: bool, mode: Reading)
    requires pos + 2 * n <= |s| && last != Escape
    requires forall i | pos <= i < pos + 2 * n :: s[i] == Escape
    ensures Scan(s, pos, last, inCode, mode) == Repeat(Escape, n) + Scan(s, pos + 2 * n, if n == 0 then last else 0, inCode, mode)
    decreases n
  {
    if n > 0 {
      BackslashPairs(s, pos + 2, n - 1, 0, inCode, mode);
      PairPrefix(s, pos, n, last, inCode, mode, Scan(s, pos + 2 * n, 0, inCode, mode));
    }
  }

  /** A run of k backslashes (not preceded by one) writes k / 2 of them; after
      an odd run the lookback is a backslash, so it escapes what follows. */
  lemma BackslashRun(s: seq<Byte>, pos: nat, k: nat, last: Byte, inCode: bool, mode: Reading)
    requires 1 <= k && pos + k <= |s| && last != Escape
    requires forall i | pos <= i < pos + k :: s[i] == Escape
    ensures Scan(s, pos, last, inCode, mode)
         == Repeat(Escape, k / 2) + Scan(s, pos + k, if k % 2 == 1 then Escape else 0, inCode, mode)
  {
    var n := k / 2;
    BackslashPairs(s, pos, n, last, inCode, mode);
    var after := if n == 0 then last else 0;
    if k % 2 == 1 {
      assert pos + k == pos + 2 * n + 1;
      LoneEscape(s, pos + 2 * n, after, inCode, mode);
    } else {
      assert pos + k == pos + 2 * n;
      assert after == 0 || n == 0;
    }
  }

  /** Inside code, a byte other than a quote, star or backslash is copied. */
  lemma CodeByte(s: seq<Byte>, pos: nat, last: Byte, mode: Reading)
    requires pos < |s| && s[pos] != Quote && s[pos] != Star && s[pos] != Escape
    ensures Scan(s, pos, last, true, mode) == [s[pos]] + Scan(s, pos + 1, s[pos], true, mode)
  {
    assert Step(s, pos, last, true, mode) == Move([s[pos]], pos + 1, s[pos], true);
  }

  /** Inside code, text with no quote, star or backslash is copied verbatim,
      angle brackets included. */
  lemma {:induction false} CodeVerbatim(s: seq<Byte>, pos: nat, q: nat, last: Byte, mode: Reading)
    requires pos <= q <= |s|
    requires forall i | pos <= i < q :: s[i] != Quote && s[i] != Star && s[i] != Escape
    ensures Scan(s, pos, last, true, mode) == s[pos..q] + Scan(s, q, if q == pos then last else s[q - 1], true, mode)
    decreases q - pos
  {
    if pos < q {
      CodeByte(s, pos, last, mode);
      CodeVerbatim(s, pos + 1, q, s[pos], mode);
      var tail := Scan(s, q, s[q - 1], true, mode);
      assert s[pos..q] == [s[pos]] + s[pos + 1..q];
      Associative([s[pos]], s[pos + 1..q], tail);
    }
  }

  /** Anywhere in the text, a ''' run becomes ``` and toggles code mode; the
      shell hint follows only an opening fence with white space after it. */
  lemma FenceToggles(s: seq<Byte>, pos: nat, last: Byte, inCode: bool, mode: Reading)
    requires OpensFence(s, pos)
    ensures Scan(s, pos, last, inCode, mode)
         == Fence + (if !inCode && SpaceAt(s, pos + 3) then ShellHint else []) + Scan(s, pos + 3, Quote, !inCode, mode)
  {
    assert Step(s, pos, last, inCode, mode)
        == Move(Fence + (if !inCode && SpaceAt(s, pos + 3) then ShellHint else []), pos + 3, Quote, !inCode);
  }

  /** Anywhere outside code, an unescaped angle bracket becomes a backtick. */
  lemma AngleBackticked(s: seq<Byte>, pos: nat, last: Byte, mode: Reading)
    requires pos < |s| && (s[pos] == LessThan || s[pos] == GreaterThan) && last != Escape
    ensures Scan(s, pos, last, false, mode) == [Backtick] + Scan(s, pos + 1, s[pos], false, mode)
  {
    assert Step(s, pos, last, false, mode) == Move([Backtick], pos + 1, s[pos], false);
  }

  /** '''body''' becomes a ``` fenced block around the unchanged body, hinted
      as shell when the body starts with white space. */
  lemma FencedBlock(body: seq<Byte>, mode: Reading)
    requires forall i | 0 <= i < |body| :: body[i] != Quote && body[i] != Star && body[i] != Escape
    ensures Scan(TripleQuote + body + TripleQuote, 0, 0, false, mode)
         == Fence + (if SpaceAt(body + TripleQuote, 0) then ShellHint else []) + body + Fence
  {
    var s := TripleQuote + body + TripleQuote;
    var n := |body|;
    assert s[..3] == TripleQuote;
    assert s[3..] == body + TripleQuote;
    assert SpaceAt(s, 3) == SpaceAt(body + TripleQuote, 0);
    FenceToggles(s, 0, 0, false, mode);
    CodeVerbatim(s, 3, 3 + n, Quote, mode);
    assert s[3..3 + n] == body;
    var last := if n == 0 then Quote else s[2 + n];
    assert s[3 + n..] == TripleQuote;
    FenceToggles(s, 3 + n, last, true, mode);
    var hint := if SpaceAt(s, 3) then ShellHint else [];
    assert Scan(s, 3, Quote, true, mode) == body + Fence;
    Associative(Fence + hint, body, Fence);
  }

  /** s has a run ''' starting at i. */
  predicate OpensFence(s: seq<Byte>, i: nat) {
    i + 2 < |s| && s[i] == Quote && s[i + 1] == Quote && s[i + 2] == Quote
  }

  /** With every look-ahead byte given back, text with no angle bracket, no
      backslash and no ''' run passes through unchanged: lone quotes and the
      bytes after them survive, and asterisks outside code are kept. */
  lemma {:induction false} RewindingKeepsText(s: seq<Byte>, pos: nat, last: Byte)
    requires pos <= |s|
    requires forall i | pos <= i < |s| :: s[i] != LessThan && s[i] != GreaterThan && s[i] != Escape && !OpensFence(s, i)
    ensures Scan(s, pos, last, false, Rewinding) == s[pos..]
    decreases |s| - pos
  {
    if pos < |s| {
      assert !OpensFence(s, pos);
      assert Step(s, pos, last, false, Rewinding) == Move([s[pos]], pos + 1, s[pos], false);
      RewindingKeepsText(s, pos + 1, s[pos]);
      assert s[pos..] == [s[pos]] + s[pos + 1..];
    }
  }

  lemma MarkdownifyRewindingKeepsText(s: seq<Byte>)
    requires forall i | 0 <= i < |s| :: s[i] != LessThan && s[i] != GreaterThan && s[i] != Escape && !OpensFence(s, i)
    ensures MarkdownifyRewinding(s) == s
  {
    RewindingKeepsText(s, 0, 0);
  }

  /** With every look-ahead byte given back, code with no quote, backslash or
      pair of asterisks is copied verbatim, single asterisks included. */
  lemma {:induction false} RewindingKeepsLoneStars(s: seq<Byte>, pos: nat, last: Byte)
    requires pos <= |s|
    requires forall i | pos <= i < |s| :: s[i] != Quote && s[i] != Escape
    requires forall i | pos <= i < |s| - 1 :: !(s[i] == Star && s[i + 1] == Star)
    ensures Scan(s, pos, last, true, Rewinding) == s[pos..]
    decreases |s| - pos
  {
    if pos < |s| {
      RewindingKeepsLoneStars(s, pos + 1, s[pos]);
    }
  }

  /** A byte the pass does not treat specially is copied, in or out of code. */
  lemma PlainByte(s: seq<Byte>, pos: nat, last: Byte, inCode: bool, mode: Reading)
    requires pos < |s| && !Special(s[pos])
    ensures Scan(s, pos, last, inCode, mode) == [s[pos]] + Scan(s, pos + 1, s[pos], inCode, mode)
  {
    assert Step(s, pos, last, inCode, mode) == Move([s[pos]], pos + 1, s[pos], inCode);
  }

  /** Anywhere in the text, a quote that does not open a fence is written as
      it is; reading resumes after the byte that follows it as written, and
      right after the quote when look-ahead bytes are given back. */
  lemma LoneQuote(s: seq<Byte>, pos: nat, last: Byte, inCode: bool, mode: Reading)
    requires pos < |s| && s[pos] == Quote && !OpensFence(s, pos)
    ensures Scan(s, pos, last, inCode, mode) == [Quote] + Scan(s, Resume(s, pos + 1, mode), Quote, inCode, mode)
    ensures mode == AsWritten ==> Resume(s, pos + 1, mode) == Min(pos + 2, |s|)
  {
    assert Step(s, pos, last, inCode, mode) == Move([Quote], Resume(s, pos + 1, mode), Quote, inCode);
  }

  /** Anywhere inside a code block, an asterisk pair is dropped; a lone
      asterisk is written as it is and reading resumes after the byte that
      follows it as written, and right after the asterisk when look-ahead
      bytes are given back. */
  lemma StarInCode(s: seq<Byte>, pos: nat, last: Byte, mode: Reading)
    requires pos < |s| && s[pos] == Star
    ensures Scan(s, pos, last, true, mode) ==
              if pos + 1 < |s| && s[pos + 1] == Star then Scan(s, pos + 2, Star, true, mode)
              else [Star] + Scan(s, Resume(s, pos + 1, mode), Star, true, mode)
  {
    assert Step(s, pos, last, true, mode) ==
             if pos + 1 < |s| && s[pos + 1] == Star then Move([], pos + 2, Star, true)
             else Move([Star], Resume(s, pos + 1, mode), Star, true);
  }

  /** As written, a quote that does not open a fence swallows the byte after
      it: "it's ok" comes out as "it' ok". */
  lemma LoneQuoteSwallowsNextByte(s: seq<Byte>)
    requires s == Ascii("it's ok")
    ensures MarkdownifyText(s) == Ascii("it' ok")
  {
    ItsOkBytes();
    var tail := QuoteThenPlain(s, 2, 116);
    PlainByte(s, 0, 0, false, AsWritten);
    PlainByte(s, 1, 105, false, AsWritten);
    assert [105, 116] + tail == [105, 116, 39, 32, 111, 107];
  }

  /** On its own output the pass loses one more byte: "it' ok" gives "it'ok". */
  lemma LoneQuoteSwallowsAgain(t: seq<Byte>)
    requires t == Ascii("it' ok")
    ensures MarkdownifyText(t) == Ascii("it'ok")
  {
    ItsOkBytes();
    var tail := QuoteThenPlain(t, 2, 116);
    PlainByte(t, 0, 0, false, AsWritten);
    PlainByte(t, 1, 105, false, AsWritten);
    assert [105, 116] + tail == [105, 116, 39, 111, 107];
  }

  /** Markdownify is not idempotent: a second pass over "it's ok" changes
      the text again. */
  lemma MarkdownifyTwiceDiffers(s: seq<Byte>)
    requires s == Ascii("it's ok")
    ensures MarkdownifyText(MarkdownifyText(s)) != MarkdownifyText(s)
  {
    LoneQuoteSwallowsNextByte(s);
    LoneQuoteSwallowsAgain(MarkdownifyText(s));
    ItsOkBytes();
  }

  /** Each pass halves a run of backslashes: two become one, and one
      becomes none. */
  lemma BackslashesHalvedAgain()
    ensures MarkdownifyText([Escape, Escape]) == [Escape]
    ensures MarkdownifyText([Escape]) == []
  {
    EscapePair([Escape, Escape], 0, 0, false, AsWritten);
    LoneEscape([Escape], 0, 0, false, AsWritten);
  }

  /** The bytes of the lone-quote example texts. */
  lemma ItsOkBytes()
    ensures Ascii("it's ok") == [105, 116, 39, 115, 32, 111, 107]
    ensures Ascii("it' ok") == [105, 116, 39, 32, 111, 107]
    ensures Ascii("it'ok") == [105, 116, 39, 111, 107]
  {
  }

  /** What the pass writes from a lone quote at pos followed by plain text. */
  lemma QuoteThenPlain(s: seq<Byte>, pos: nat, last: Byte) returns (out: seq<Byte>)
    requires pos + 1 < |s| && s[pos] == Quote && s[pos + 1] != Quote
    requires forall i | pos + 2 <= i < |s| :: !Special(s[i])
    ensures out == [Quote] + s[pos + 2..]
    ensures Scan(s, pos, last, false, AsWritten) == out
  {
    LoneQuote(s, pos, last, false, AsWritten);
    ScanPlain(s, pos + 2, Quote, false, AsWritten);
    out := [Quote] + s[pos + 2..];
  }

  /** Given back, the byte after the quote survives: "it's ok" stays as it is. */
  lemma LoneQuoteKeptWhenRewinding()
    ensures MarkdownifyRewinding(Ascii("it's ok")) == Ascii("it's ok")
  {
    var s := Ascii("it's ok");
    assert s == [105, 116, 39, 115, 32, 111, 107];
    MarkdownifyRewindingKeepsText(s);
  }

  /** As written, a single asterisk inside code swallows the byte after it:
      '''*a''' comes out as ```*```. */
  lemma CodeStarSwallowsNextByte(s: seq<Byte>)
    requires s == Ascii("'''*a'''")
    ensures MarkdownifyText(s) == Ascii("```*```")
  {
    StarCodeBytes();
    FenceToggles(s, 0, 0, false, AsWritten);
    assert !SpaceAt(s, 3);
    StarInCode(s, 3, Quote, AsWritten);
    FenceToggles(s, 5, Star, true, AsWritten);
    assert Scan(s, 5, Star, true, AsWritten) == Fence;
    assert Scan(s, 3, Quote, true, AsWritten) == [Star] + Fence;
  }

  /** Given back, the byte after the asterisk survives: '''*a''' gives ```*a```. */
  lemma CodeStarKeptWhenRewinding(s: seq<Byte>)
    requires s == Ascii("'''*a'''")
    ensures MarkdownifyRewinding(s) == Ascii("```*a```")
  {
    StarCodeBytes();
    FenceToggles(s, 0, 0, false, Rewinding);
    assert !SpaceAt(s, 3);
    StarInCode(s, 3, Quote, Rewinding);
    PlainByte(s, 4, Star, true, Rewinding);
    FenceToggles(s, 5, 97, true, Rewinding);
    assert Scan(s, 5, 97, true, Rewinding) == Fence;
    assert Scan(s, 3, Quote, true, Rewinding) == [Star, 97] + Fence;
  }

  lemma StarCodeBytes()
    ensures Ascii("'''*a'''") == [39, 39, 39, 42, 97, 39, 39, 39]
    ensures Ascii("```*```") == [96, 96, 96, 42, 96, 96, 96]
    ensures Ascii("```*a```") == [96, 96, 96, 42, 97, 96, 96, 96]
  {
  }

  /** Escaped angle brackets survive and their backslashes go: \<b\> gives <b>. */
  lemma EscapedAnglesExample()
    ensures MarkdownifyText(Ascii("\\<b\\>")) == Ascii("<b>")
  {
    var s := Ascii("\\<b\\>");
    assert s == [92, 60, 98, 92, 62];
    EscapedAngle(s, 0, 0, false, AsWritten);
    EscapedAngle(s, 3, 98, false, AsWritten);
  }

  /** The reader r stands at position pos of the text s, which it held as
      data[base..] when the pass began; once it has hit the end it is empty. */
  ghost predicate Positioned(r: Buffer, s: seq<Byte>, data: seq<Byte>, base: nat, pos: nat)
    reads r
  {
    && r.Valid() && pos <= |s| && base <= |data| && s == data[base..]
    && ((r.buf == data && r.off == base + pos) || (r.buf == [] && r.off == 0 && pos == |s|))
  }

  lemma PositionedUnread(r: Buffer, s: seq<Byte>, data: seq<Byte>, base: nat, pos: nat)
    requires Positioned(r, s, data, base, pos)
    ensures r.Unread() == s[pos..]
    ensures pos < |s| ==> r.buf == data && r.off == base + pos && r.buf[r.off] == s[pos]
  {
    if r.buf == data && r.off == base + pos {
      assert data[base + pos..] == data[base..][pos..];
    }
  }

  /** The ''' branch of markdownify after the first quote was read: two more
      bytes are read; a fence is written (with the shell hint when an opening
      fence is followed by white space, which is read and given back), or else
      the quote is written and UnreadByte is called twice. */
  method QuoteBranch(r: Buffer, w: Buffer, ghost s: seq<Byte>, ghost data: seq<Byte>, ghost base: nat, ghost pos: nat, inCode: bool)
    returns (fence: bool, ghost next: nat)
    requires r != w && w.Valid()
    requires Positioned(r, s, data, base, pos)
    modifies r, w
    ensures w.Valid() && w.off == old(w.off) && w.lastRead == OpInvalid
    ensures Positioned(r, s, data, base, next)
    ensures fence == (pos + 1 < |s| && s[pos] == Quote && s[pos + 1] == Quote)
    ensures fence ==> next == pos + 2 && w.buf == old(w.buf) + Fence + (if !inCode && SpaceAt(s, pos + 2) then ShellHint else [])
    ensures !fence ==> next == Min(pos + 1, |s|) && w.buf == old(w.buf) + [Quote]
  {
    PositionedUnread(r, s, data, base, pos);
    var b1, ok1 := r.ReadByte();
    next := if ok1 then pos + 1 else |s|;
    PositionedUnread(r, s, data, base, next);
    var b2, ok2 := r.ReadByte();
    next := if ok2 then next + 1 else |s|;
    fence := b1 == Quote && b2 == Quote;
    if fence {
      w.WriteString(Fence);
      if !inCode {
        PositionedUnread(r, s, data, base, next);
        var n, size, okRune := r.ReadRune();
        if okRune {
          if IsSpace(n) {
            w.WriteString(ShellHint);
          }
          var _ := r.UnreadRune();
        }
      }
    } else {
      w.WriteByte(Quote);
      var _ := r.UnreadByte();
      var _ := r.UnreadByte();
      next := Min(pos + 1, |s|);
    }
  }

  /** The `*` branch of markdownify inside a code block, after the star was
      read: one more byte is read, and the star is written unless that byte is
      a star too. The UnreadByte that follows is called on the output buffer w,
      where no read preceded it, so it gives nothing back. */
  method StarBranch(r: Buffer, w: Buffer, ghost s: seq<Byte>, ghost data: seq<Byte>, ghost base: nat, ghost pos: nat)
    returns (ghost next: nat)
    requires r != w && w.Valid() && w.lastRead == OpInvalid
    requires Positioned(r, s, data, base, pos)
    modifies r, w
    ensures w.Valid() && w.off == old(w.off) && w.lastRead == OpInvalid
    ensures Positioned(r, s, data, base, next)
    ensures next == Min(pos + 1, |s|)
    ensures w.buf == old(w.buf) + (if pos < |s| && s[pos] == Star then [] else [Star])
  {
    PositionedUnread(r, s, data, base, pos);
    var b1, ok1 := r.ReadByte();
    next := Min(pos + 1, |s|);
    if b1 != Star {
      w.WriteByte(Star);
      var _ := w.UnreadByte();
    }
  }

  lemma Associative(a: seq<Byte>, b: seq<Byte>, c: seq<Byte>)
    ensures (a + b) + c == a + (b + c)
  {
  }

  /** One turn of markdownify's loop: read a byte and act on it. ok is false
      when the reader is exhausted, and then nothing is written. */
  method Turn(r: Buffer, w: Buffer, ghost s: seq<Byte>, ghost data: seq<Byte>, ghost base: nat, ghost pos: nat,
              last: Byte, inCode: bool)
    returns (ok: bool, last': Byte, inCode': bool, ghost next: nat)
    requires r != w && w.Valid() && w.lastRead == OpInvalid
    requires Positioned(r, s, data, base, pos)
    modifies r, w
    ensures w.Valid() && w.off == old(w.off) && w.lastRead == OpInvalid
    ensures ok == (pos < |s|)
    ensures !ok ==> w.buf == old(w.buf) && r.Valid() && r.Unread() == []
    ensures ok ==> var m := Step(s, pos, last, inCode, AsWritten);
                   && Positioned(r, s, data, base, next)
                   && w.buf == old(w.buf) + m.out && next == m.next && last' == m.last && inCode' == m.inCode
  {
    PositionedUnread(r, s, data, base, pos);
    var b;
    b, ok := r.ReadByte();
    last', inCode', next := last, inCode, pos;
    if !ok {
      return;
    }
    next := pos + 1;
    if b == LessThan {
      if last != Escape && !inCode {
        w.WriteByte(Backtick);
      } else {
        w.WriteByte(b);
      }
    } else if b == GreaterThan {
      if last != Escape && !inCode {
        w.WriteByte(Backtick);
      } else {
        w.WriteByte(b);
      }
    } else if b == Quote {
      var fence;
      fence, next := QuoteBranch(r, w, s, data, base, next, inCode);
      if fence {
        inCode' := !inCode;
      }
    } else if b == Star {
      if inCode {
        next := StarBranch(r, w, s, data, base, next);
      } else {
        w.WriteByte(b);
      }
    } else if b == Escape {
      if last == Escape {
        w.WriteByte(Escape);
        b := 0;
      }
    } else {
      w.WriteByte(b);
    }
    last' := b;
  }

  /** markdownify: reads r to the end and returns the converted text. */
  method Markdownify(r: Buffer) returns (out: seq<Byte>)
    requires r.Valid()
    modifies r
    ensures out == MarkdownifyText(old(r.Unread()))
    ensures r.Valid() && r.Unread() == []
  {
    ghost var s := r.Unread();
    ghost var base, data := r.off, r.buf;
    ghost var pos: nat := 0;
    var last: Byte := 0;
    var inCode := false;
    var w := new Buffer([]);
    while true
      invariant fresh(w) && w.Valid() && w.off == 0 && w.lastRead == OpInvalid
      invariant Positioned(r, s, data, base, pos)
      invariant w.buf + Scan(s, pos, last, inCode, AsWritten) == MarkdownifyText(s)
      decreases |s| - pos
    {
      ghost var before := w.buf;
      ghost var rest := Scan(s, pos, last, inCode, AsWritten);
      var ok;
      ok, last, inCode, pos := Turn(r, w, s, data, base, pos, last, inCode);
      if !ok {
        return w.Unread();
      }
      ghost var written := w.buf[|before|..];
      assert w.buf == before + written;
      assert rest == written + Scan(s, pos, last, inCode, AsWritten);
      Associative(before, written, Scan(s, pos, last, inCode, AsWritten));
    }
  }
}
