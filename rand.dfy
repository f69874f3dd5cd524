/** The `step rand` command (command/rand/rand.go): how the positional length,
    --format and --dictionary are resolved, which generator a format name
    selects, the dice roll, and how dictionary words are joined. Randomness
    is a parameter: a sequence of indices, each below its bound. */
module Rand {
  import opened Runes

  datatype Result<T> = Ok(value: T) | Err(error: RandError)

  datatype Option<T> = None | Some(value: T)

  /** The errors randAction and randWithFormat return before any randomness
      is drawn. */
  datatype RandError =
    | TooManyArguments
    | IncompatibleFlags
    | InvalidLength(arg: string)
    | InvalidFormat(format: string)

  /** Go's int is 64 bits wide. */
  const MinInt64: int := -0x8000_0000_0000_0000
  const MaxInt64: int := 0x7FFF_FFFF_FFFF_FFFF

  // ---------------------------------------------------------------------------
  // strings.ToLower and strconv.Atoi / strconv.Itoa

  /** The capital I with dot above (U+0130) and the Kelvin sign (U+212A): the
      two characters outside ASCII that unicode.ToLower maps into ASCII. */
  const DottedCapitalI: char := '\U{0130}'
  const KelvinSign: char := '\U{212A}'

  /** unicode.ToLower on the letters whose lower case is ASCII; every other
      character is kept. */
  function LowerChar(c: char): (d: char)
    ensures 'A' <= c <= 'Z' ==> d as int == c as int + 32
    ensures c == DottedCapitalI ==> d == 'i'
    ensures c == KelvinSign ==> d == 'k'
    ensures !('A' <= c <= 'Z') && c != DottedCapitalI && c != KelvinSign ==> d == c
    ensures (d as int < 128) <==> (c as int < 128 || c == DottedCapitalI || c == KelvinSign)
  {
    if 'A' <= c <= 'Z' then (c as int + 32) as char
    else if c == DottedCapitalI then 'i'
    else if c == KelvinSign then 'k'
    else c
  }

  /** strings.ToLower, on the letters whose lower case is ASCII. */
  function ToLower(s: string): (r: string)
    ensures |r| == |s| && forall i | 0 <= i < |s| :: r[i] == LowerChar(s[i])
  {
    seq(|s|, i requires 0 <= i < |s| => LowerChar(s[i]))
  }

  lemma ToLowerIdempotent(s: string)
    ensures ToLower(ToLower(s)) == ToLower(s)
  {
  }

  predicate IsDigit(c: char) {
    '0' <= c <= '9'
  }

  predicate AllDigits(s: string) {
    forall i | 0 <= i < |s| :: IsDigit(s[i])
  }

  /** The number a string of decimal digits spells. */
  function Value(s: string): nat
    requires AllDigits(s)
  {
    if |s| == 0 then 0 else Value(s[..|s| - 1]) * 10 + (s[|s| - 1] as int - '0' as int)
  }

  /** The decimal digits of n, without leading zeros. */
  function NatToString(n: nat): (s: string)
    ensures |s| > 0 && AllDigits(s)
    ensures s[0] == '0' ==> n == 0 && s == "0"
  {
    var d := ('0' as int + n % 10) as char;
    if n < 10 then [d] else NatToString(n / 10) + [d]
  }

  /** strconv.Itoa, also big.Int.String. */
  function Itoa(n: int): (s: string)
    ensures |s| > 0
    ensures n >= 0 ==> AllDigits(s) && (s[0] == '0' ==> n == 0 && s == "0")
    ensures n < 0 ==> |s| > 1 && s[0] == '-' && AllDigits(s[1..]) && s[1] != '0'
  {
    if n < 0 then "-" + NatToString(-n) else NatToString(n)
  }

  /** s without its leading sign, if it has one. */
  function Unsigned(s: string): (d: string)
    requires |s| > 0
    ensures |d| == |s| || |d| == |s| - 1
  {
    if s[0] == '+' || s[0] == '-' then s[1..] else s
  }

  /** strconv.Atoi on a 64-bit platform: an optional sign, at least one
      decimal digit and nothing else, within the range of int; None is the
      syntax or range error. */
  function ParseInt(s: string): (r: Option<int>)
    ensures r.Some? ==> MinInt64 <= r.value <= MaxInt64
    ensures r.Some? ==> |s| > 0 && |Unsigned(s)| > 0 && AllDigits(Unsigned(s))
                        && r.value == (if s[0] == '-' then -(Value(Unsigned(s)) as int) else Value(Unsigned(s)))
    ensures |s| == 0 ==> r.None?
    ensures AllDigits(s) && 0 < |s| && Value(s) <= MaxInt64 ==> r == Some(Value(s))
    ensures |s| > 0 && |Unsigned(s)| > 0 && AllDigits(Unsigned(s))
            && MinInt64 <= (if s[0] == '-' then -(Value(Unsigned(s)) as int) else Value(Unsigned(s))) <= MaxInt64
            ==> r.Some?
  {
    if |s| == 0 then None
    else
      var digits := Unsigned(s);
      if |digits| == 0 || !AllDigits(digits) then None
      else
        var magnitude: int := Value(digits);
        var v := if s[0] == '-' then -magnitude else magnitude;
        if MinInt64 <= v <= MaxInt64 then Some(v) else None
  }

  lemma {:induction false} ValueOfNatToString(n: nat)
    ensures Value(NatToString(n)) == n
  {
    var s := NatToString(n);
    if n >= 10 {
      ValueOfNatToString(n / 10);
      assert s[..|s| - 1] == NatToString(n / 10);
    }
  }

  /** Atoi reads back what Itoa writes, for every int. */
  lemma ParseItoa(n: int)
    requires MinInt64 <= n <= MaxInt64
    ensures ParseInt(Itoa(n)) == Some(n)
  {
    if n < 0 {
      ValueOfNatToString(-n);
      assert Itoa(n)[1..] == NatToString(-n);
    } else {
      ValueOfNatToString(n);
    }
  }

  // ---------------------------------------------------------------------------
  // randAction

  /** What randAction goes on to do once its arguments are resolved. */
  datatype Plan =
    | WithDictionary(path: string, length: int)
    | WithFormat(format: string, length: int)

  /** The length used when no positional argument is given. */
  function DefaultLength(dictionary: string, format: string): (n: int)
    ensures n == 6 || n == 32
    ensures n == 6 <==> dictionary != "" || format == "dice"
  {
    if dictionary != "" || format == "dice" then 6 else 32
  }

  /** randAction up to the call of randWithDictionary or randWithFormat: too
      many arguments first, then the incompatible flags, then the length
      argument. */
  function ResolveAction(args: seq<string>, dictionary: string, formatFlag: string): (r: Result<Plan>)
    ensures |args| > 1 ==> r == Err(TooManyArguments)
    ensures |args| <= 1 && dictionary != "" && formatFlag != "" ==> r == Err(IncompatibleFlags)
    ensures |args| <= 1 && (dictionary == "" || formatFlag == "") ==>
              (r.Err? <==> |args| == 1 && ParseInt(args[0]).None?)
    ensures r.Err? && r.error.InvalidLength? ==> |args| == 1 && r.error.arg == args[0]
    ensures r.Ok? ==> r.value.length == if |args| == 1 then ParseInt(args[0]).value
                                        else DefaultLength(dictionary, ToLower(formatFlag))
    ensures r.Ok? ==> (r.value.WithDictionary? <==> dictionary != "")
    ensures r.Ok? && r.value.WithDictionary? ==> r.value.path == dictionary
    ensures r.Ok? && r.value.WithFormat? ==> r.value.format == ToLower(formatFlag)
  {
    if |args| > 1 then Err(TooManyArguments)
    else
      var format := ToLower(formatFlag);
      if dictionary != "" && format != "" then Err(IncompatibleFlags)
      else
        var length := DefaultLength(dictionary, format);
        if |args| == 1 && ParseInt(args[0]).None? then Err(InvalidLength(args[0]))
        else
          var length := if |args| == 1 then ParseInt(args[0]).value else length;
          if dictionary != "" then Ok(WithDictionary(dictionary, length))
          else Ok(WithFormat(format, length))
  }

  /** A length argument with anything but digits after its sign is rejected. */
  lemma MalformedLengthRejected()
    ensures ResolveAction(["1x"], "", "") == Err(InvalidLength("1x"))
    ensures ResolveAction(["abc"], "", "") == Err(InvalidLength("abc"))
    ensures ResolveAction(["-"], "", "") == Err(InvalidLength("-"))
  {
    assert !AllDigits(Unsigned("1x")) by { assert !IsDigit("1x"[1]); }
    assert !AllDigits(Unsigned("abc")) by { assert !IsDigit("abc"[0]); }
  }

  /** A length argument may carry a sign and leading zeros: "+5" asks for
      five characters, and "-05" is accepted as -5. */
  lemma SignedLengthsAccepted()
    ensures ResolveAction(["+5"], "", "") == Ok(WithFormat("", 5))
    ensures ResolveAction(["-05"], "", "") == Ok(WithFormat("", -5))
  {
    assert Unsigned("+5") == "5";
    assert Unsigned("-05") == "05";
    assert Value("05") == 5 by { assert "05"[..1] == "0"; }
  }

  /** The format flag is read without regard to the case of its letters. */
  lemma FormatCaseIgnored(args: seq<string>, dictionary: string, f: string, g: string)
    requires ToLower(f) == ToLower(g)
    ensures ResolveAction(args, dictionary, f) == ResolveAction(args, dictionary, g)
  {
  }

  // ---------------------------------------------------------------------------
  // randWithFormat

  /** The generator a format name selects. The first four and the uuid and
      emoji generators are library code; Charset draws from the alphabet
      given. */
  datatype Generator =
    | RawBytes
    | Printable
    | Alphanumeric
    | Alphabetic
    | HexDigits
    | Charset(alphabet: string)
    | UuidV4
    | EmojiFingerprint
    | DiceRoll

  const Digits: string := "0123456789"
  const LowerLetters: string := "abcdefghijklmnopqrstuvwxyz"
  const UpperLetters: string := "ABCDEFGHIJKLMNOPQRSTUVWXYZ"

  /** The format names randWithFormat accepts. */
  const FormatNames: set<string> :=
    {"raw", "", "ascii", "alphanumeric", "alphabet", "hex", "hexadecimal", "dec", "decimal",
     "lower", "upper", "uuid", "emoji", "dice"}

  /** The raw test and the switch of randWithFormat. */
  function SelectGenerator(format: string): (g: Result<Generator>)
    ensures g.Ok? <==> format in FormatNames
    ensures g.Err? ==> g.error == InvalidFormat(format)
    ensures g == Ok(DiceRoll) <==> format == "dice"
    ensures g.Ok? && g.value.Charset? ==> g.value.alphabet in {Digits, LowerLetters, UpperLetters}
  {
    if format == "raw" then Ok(RawBytes)
    else if format == "" || format == "ascii" then Ok(Printable)
    else if format == "alphanumeric" then Ok(Alphanumeric)
    else if format == "alphabet" then Ok(Alphabetic)
    else if format == "hex" || format == "hexadecimal" then Ok(HexDigits)
    else if format == "dec" || format == "decimal" then Ok(Charset(Digits))
    else if format == "lower" then Ok(Charset(LowerLetters))
    else if format == "upper" then Ok(Charset(UpperLetters))
    else if format == "uuid" then Ok(UuidV4)
    else if format == "emoji" then Ok(EmojiFingerprint)
    else if format == "dice" then Ok(DiceRoll)
    else Err(InvalidFormat(format))
  }

  /** Non-ASCII capitals that lower to ASCII select a generator: DİCE is dice. */
  lemma DottedCapitalSelectsDice()
    ensures SelectGenerator(ToLower("D" + [DottedCapitalI] + "CE")) == Ok(DiceRoll)
  {
    assert ToLower("D" + [DottedCapitalI] + "CE") == "dice";
  }

  /** No character occurs twice in s. */
  predicate Distinct(s: string) {
    forall i, j | 0 <= i < j < |s| :: s[i] != s[j]
  }

  /** s is the run of consecutive characters starting at first. */
  predicate Consecutive(s: string, first: char) {
    forall i | 0 <= i < |s| :: s[i] as int == first as int + i
  }

  /** A run of consecutive characters holds each character of its range once. */
  lemma ConsecutiveRange(s: string, first: char)
    requires Consecutive(s, first)
    ensures Distinct(s)
    ensures forall c :: c in s <==> first as int <= c as int < first as int + |s|
  {
    forall c | first as int <= c as int < first as int + |s|
      ensures c in s
    {
      assert s[c as int - first as int] == c;
    }
  }

  /** dec and decimal draw from exactly the ten digits, each once. */
  lemma DecimalAlphabet()
    ensures SelectGenerator("dec") == SelectGenerator("decimal") == Ok(Charset(Digits))
    ensures |Digits| == 10 && Distinct(Digits)
    ensures forall c :: c in Digits <==> '0' <= c <= '9'
  {
    assert Consecutive(Digits, '0');
    ConsecutiveRange(Digits, '0');
  }

  /** lower draws from exactly the 26 lower-case letters, each once. */
  lemma LowerAlphabet()
    ensures SelectGenerator("lower") == Ok(Charset(LowerLetters))
    ensures |LowerLetters| == 26 && Distinct(LowerLetters)
    ensures forall c :: c in LowerLetters <==> 'a' <= c <= 'z'
  {
    assert Consecutive(LowerLetters, 'a');
    ConsecutiveRange(LowerLetters, 'a');
  }

  /** upper draws from exactly the 26 upper-case letters, each once. */
  lemma UpperAlphabet()
    ensures SelectGenerator("upper") == Ok(Charset(UpperLetters))
    ensures |UpperLetters| == 26 && Distinct(UpperLetters)
    ensures forall c :: c in UpperLetters <==> 'A' <= c <= 'Z'
  {
    assert Consecutive(UpperLetters, 'A');
    ConsecutiveRange(UpperLetters, 'A');
  }

  /** randutil.String(length, alphabet) with the random indices given: one
      character of the alphabet per index. */
  function DrawCharset(alphabet: string, picks: seq<nat>): (s: string)
    requires forall i | 0 <= i < |picks| :: picks[i] < |alphabet|
    ensures |s| == |picks|
    ensures forall i | 0 <= i < |s| :: s[i] in alphabet
  {
    seq(|picks|, i requires 0 <= i < |picks| => alphabet[picks[i]])
  }

  /** Every character of a decimal draw is a digit. */
  lemma DecimalDraw(picks: seq<nat>)
    requires forall i | 0 <= i < |picks| :: picks[i] < 10
    ensures AllDigits(DrawCharset(Digits, picks))
  {
  }

  /** The dice format: rand.Int gives r with 0 <= r < length and the roll
      printed is r + 1, so it is a number from 1 to length. rand.Int panics
      unless length > 0. */
  function RollDice(length: int, r: nat): (s: string)
    requires 0 <= r < length <= MaxInt64
    ensures ParseInt(s).Some? && 1 <= ParseInt(s).value <= length
    ensures ParseInt(s).value == r + 1
  {
    ParseItoa(r + 1);
    Itoa(r + 1)
  }

  // ---------------------------------------------------------------------------
  // randWithDictionary

  /** unicode.IsSpace on a character. */
  predicate IsSpaceChar(c: char) {
    IsSpace(c as int)
  }

  predicate AllSpace(s: string) {
    forall i | 0 <= i < |s| :: IsSpaceChar(s[i])
  }

  /** s without its leading white space. */
  function TrimLeft(s: string): (r: string)
    ensures |r| <= |s| && r == s[|s| - |r|..] && AllSpace(s[..|s| - |r|])
    ensures |r| == 0 || !IsSpaceChar(r[0])
  {
    if |s| > 0 && IsSpaceChar(s[0]) then TrimLeft(s[1..]) else s
  }

  /** s without its trailing white space. */
  function TrimRight(s: string): (r: string)
    ensures |r| <= |s| && r == s[..|r|] && AllSpace(s[|r|..])
    ensures |r| == 0 || !IsSpaceChar(r[|r| - 1])
  {
    if |s| > 0 && IsSpaceChar(s[|s| - 1]) then
      var r := TrimRight(s[..|s| - 1]);
      assert s[..|s| - 1][|r|..] + [s[|s| - 1]] == s[|r|..];
      r
    else s
  }

  /** strings.TrimSpace: s with the white space at both ends removed. */
  function TrimSpace(s: string): (r: string)
    ensures |r| == 0 || (!IsSpaceChar(r[0]) && !IsSpaceChar(r[|r| - 1]))
  {
    TrimRight(TrimLeft(s))
  }

  /** s is a run of white space, then r at index a, then more white space. */
  predicate Framed(s: string, a: nat, r: string) {
    a + |r| <= |s| && s[a..a + |r|] == r && AllSpace(s[..a]) && AllSpace(s[a + |r|..])
  }

  /** Removing white space from the front and then from the back frames r. */
  lemma FramedByTrims(s: string, l: string, r: string)
    requires |l| <= |s| && l == s[|s| - |l|..] && AllSpace(s[..|s| - |l|])
    requires |r| <= |l| && r == l[..|r|] && AllSpace(l[|r|..])
    ensures Framed(s, |s| - |l|, r)
  {
    var a := |s| - |l|;
    assert s[a..a + |r|] == l[..|r|];
    assert s[a + |r|..] == l[|r|..];
  }

  /** TrimSpace removes white space only at the ends: s is some white space,
      then TrimSpace(s), then some more white space. */
  lemma TrimSpaceSplits(s: string)
    ensures exists a: nat :: Framed(s, a, TrimSpace(s))
  {
    var l := TrimLeft(s);
    var a: nat := |s| - |l|;
    FramedByTrims(s, l, TrimRight(l));
    assert Framed(s, a, TrimSpace(s));
  }

  /** Trimming twice is the same as trimming once. */
  lemma TrimSpaceIdempotent(s: string)
    ensures TrimSpace(TrimSpace(s)) == TrimSpace(s)
  {
    var r := TrimSpace(s);
    assert TrimLeft(r) == r;
    assert TrimRight(r) == r;
  }

  /** Each word followed by a dash. */
  function Dashed(words: seq<string>): string {
    if |words| == 0 then "" else Dashed(words[..|words| - 1]) + words[|words| - 1] + "-"
  }

  /** The words separated by single dashes, as randWithDictionary prints them. */
  function Join(words: seq<string>): (r: string)
    ensures |words| == 0 ==> r == ""
    ensures |words| == 1 ==> r == words[0]
    ensures |words| > 0 ==> r + "-" == Dashed(words)
  {
    if |words| == 0 then "" else Dashed(words[..|words| - 1]) + words[|words| - 1]
  }

  /** s with each of its dashes taken as a separator. */
  function Split(s: string): (parts: seq<string>)
    ensures |parts| > 0
  {
    if |s| == 0 then [""]
    else
      var front := Split(s[..|s| - 1]);
      if s[|s| - 1] == '-' then front + [""]
      else front[..|front| - 1] + [front[|front| - 1] + [s[|s| - 1]]]
  }

  function CountDashes(s: string): nat {
    if |s| == 0 then 0 else CountDashes(s[..|s| - 1]) + if s[|s| - 1] == '-' then 1 else 0
  }

  predicate NoDash(w: string) {
    forall i | 0 <= i < |w| :: w[i] != '-'
  }

  lemma {:induction false} CountDashesAppend(s: string, t: string)
    decreases |t|
    ensures CountDashes(s + t) == CountDashes(s) + CountDashes(t)
  {
    if |t| > 0 {
      CountDashesAppend(s, t[..|t| - 1]);
      assert (s + t)[..|s + t| - 1] == s + t[..|t| - 1];
      assert (s + t)[|s + t| - 1] == t[|t| - 1];
    } else {
      assert s + t == s;
    }
  }

  lemma {:induction false} CountDashesNone(w: string)
    requires NoDash(w)
    ensures CountDashes(w) == 0
  {
    if |w| > 0 {
      CountDashesNone(w[..|w| - 1]);
    }
  }

  /** Splitting s + w, for w without dashes, extends the last part of s by w. */
  lemma {:induction false} SplitAppendWord(s: string, w: string)
    requires NoDash(w)
    decreases |w|
    ensures var f := Split(s);
            Split(s + w) == f[..|f| - 1] + [f[|f| - 1] + w]
  {
    if |w| > 0 {
      var w' := w[..|w| - 1];
      SplitAppendWord(s, w');
      assert (s + w)[..|s + w| - 1] == s + w';
      var f := Split(s);
      assert f[|f| - 1] + w == f[|f| - 1] + w' + [w[|w| - 1]];
    } else {
      var f := Split(s);
      assert s + w == s;
      assert f[|f| - 1] + w == f[|f| - 1];
      assert f == f[..|f| - 1] + [f[|f| - 1]];
    }
  }

  /** A trailing dash starts a new, empty part. */
  lemma SplitDash(x: string)
    ensures Split(x + "-") == Split(x) + [""]
  {
    assert (x + "-")[..|x|] == x;
  }

  /** Splitting the front with its last word appended, when the front's split
      ends in an empty part. */
  lemma SplitFrontWord(front: seq<string>, x: string, w: string)
    requires Split(x) == front + [""] && NoDash(w)
    ensures Split(x + w) == front + [w]
  {
    SplitAppendWord(x, w);
    assert (front + [""])[..|front|] == front;
    assert "" + w == w;
  }

  lemma {:induction false} SplitDashed(words: seq<string>)
    requires forall i | 0 <= i < |words| :: NoDash(words[i])
    ensures Split(Dashed(words)) == words + [""]
  {
    if |words| > 0 {
      var front := words[..|words| - 1];
      var w := words[|words| - 1];
      SplitDashed(front);
      SplitFrontWord(front, Dashed(front), w);
      SplitDash(Dashed(front) + w);
      assert front + [w] + [""] == words + [""];
    }
  }

  lemma {:induction false} CountDashesDashed(words: seq<string>)
    requires forall i | 0 <= i < |words| :: NoDash(words[i])
    ensures CountDashes(Dashed(words)) == |words|
  {
    if |words| > 0 {
      var front := words[..|words| - 1];
      var w := words[|words| - 1];
      CountDashesDashed(front);
      CountDashesAppend(Dashed(front) + w, "-");
      CountDashesAppend(Dashed(front), w);
      CountDashesNone(w);
      assert CountDashes("-") == 1 by {
        assert "-"[..0] == "";
      }
    }
  }

  /** Words without dashes are recovered from their joined form, and there are
      exactly one fewer dashes than words. */
  lemma SplitJoin(words: seq<string>)
    requires |words| > 0
    requires forall i | 0 <= i < |words| :: NoDash(words[i])
    ensures Split(Join(words)) == words
    ensures CountDashes(Join(words)) == |words| - 1
  {
    var front := words[..|words| - 1];
    var w := words[|words| - 1];
    SplitDashed(front);
    SplitFrontWord(front, Dashed(front), w);
    assert front + [w] == words;
    CountDashesDashed(front);
    CountDashesAppend(Dashed(front), w);
    CountDashesNone(w);
  }

  /** The words picked, in order. */
  function Picked(words: seq<string>, picks: seq<nat>): (chosen: seq<string>)
    requires forall i | 0 <= i < |picks| :: picks[i] < |words|
    ensures |chosen| == |picks|
    ensures forall i | 0 <= i < |picks| :: chosen[i] == words[picks[i]]
  {
    seq(|picks|, i requires 0 <= i < |picks| => words[picks[i]])
  }

  /** The dictionary lines with white space trimmed, as the scanner loop
      collects them. */
  function Words(lines: seq<string>): (words: seq<string>)
    ensures |words| == |lines|
    ensures forall i | 0 <= i < |lines| :: words[i] == TrimSpace(lines[i])
  {
    if |lines| == 0 then []
    else Words(lines[..|lines| - 1]) + [TrimSpace(lines[|lines| - 1])]
  }

  function Max0(n: int): nat {
    if n < 0 then 0 else n
  }

  /** One more line trimmed. */
  lemma WordsStep(lines: seq<string>, k: nat)
    requires k < |lines|
    ensures Words(lines[..k + 1]) == Words(lines[..k]) + [TrimSpace(lines[k])]
  {
    assert lines[..k + 1][..k] == lines[..k];
  }

  /** One more word appended, with or without its dash. */
  lemma JoinStep(ws: seq<string>, i: nat)
    requires i < |ws|
    ensures Dashed(ws[..i + 1]) == Dashed(ws[..i]) + ws[i] + "-"
    ensures Join(ws[..i + 1]) == Dashed(ws[..i]) + ws[i]
  {
    assert ws[..i + 1][..i] == ws[..i];
  }

  /** randWithDictionary after the file is split into lines: trim each line,
      then join length random words with dashes. picks holds the indices
      rand.Int returns, each below the number of words (rand.Int panics when
      there are none and a word is needed). */
  method RandWithDictionary(lines: seq<string>, length: int, picks: seq<nat>) returns (s: string)
    requires |picks| == Max0(length)
    requires forall i | 0 <= i < |picks| :: picks[i] < |lines|
    ensures s == Join(Picked(Words(lines), picks))
  {
    var words := TrimLines(lines);
    s := JoinPicked(words, length, picks);
  }

  /** The scanner loop of randWithDictionary: one trimmed word per line. */
  method TrimLines(lines: seq<string>) returns (words: seq<string>)
    ensures words == Words(lines)
  {
    words := [];
    for k := 0 to |lines|
      invariant words == Words(lines[..k])
    {
      WordsStep(lines, k);
      words := words + [TrimSpace(lines[k])];
    }
    assert lines[..|lines|] == lines;
  }

  /** The joining loop of randWithDictionary: the picked words, a dash after
      each but the last. */
  method JoinPicked(words: seq<string>, length: int, picks: seq<nat>) returns (s: string)
    requires |picks| == Max0(length)
    requires forall i | 0 <= i < |picks| :: picks[i] < |words|
    ensures s == Join(Picked(words, picks))
  {
    ghost var chosen := Picked(words, picks);
    var n := Max0(length);
    s := "";
    for i := 0 to n
      invariant i < n ==> s == Dashed(chosen[..i])
      invariant i == n ==> s == Join(chosen)
    {
      JoinStep(chosen, i);
      s := s + words[picks[i]];
      if i != length - 1 {
        s := s + "-";
      } else {
        assert chosen[..i + 1] == chosen;
      }
    }
  }

  /** The dictionary output has exactly length words, each a trimmed line of
      the dictionary, separated by length - 1 dashes, when no trimmed line
      holds a dash. */
  lemma DictionaryOutput(lines: seq<string>, length: int, picks: seq<nat>)
    requires length > 0 && |picks| == length
    requires forall i | 0 <= i < |picks| :: picks[i] < |lines|
    requires forall i | 0 <= i < |picks| :: NoDash(TrimSpace(lines[picks[i]]))
    ensures var out := Join(Picked(Words(lines), picks));
            && |Split(out)| == length
            && (forall i | 0 <= i < length :: Split(out)[i] == TrimSpace(lines[picks[i]]))
            && CountDashes(out) == length - 1
  {
    var words := Words(lines);
    var chosen := Picked(words, picks);
    forall i | 0 <= i < |chosen|
      ensures chosen[i] == TrimSpace(lines[picks[i]])
    {
      assert chosen[i] == words[picks[i]];
    }
    SplitJoin(chosen);
  }
}
