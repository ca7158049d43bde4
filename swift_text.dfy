/** The pieces of Swift's standard library that the viewer's string logic
    relies on: `split(separator:)` with its default of omitting empty
    pieces, `hasSuffix`, and the failable `Int(_:)` initialiser that parses
    a decimal 64-bit integer. */
module SwiftText {
  import opened Wrappers

  /** Index of the first occurrence of `c` in `s`, or `|s|` when there is none. */
  function IndexOf(s: string, c: char): (k: nat)
    ensures k <= |s|
    ensures c !in s[..k]
    ensures k < |s| ==> s[k] == c
  {
    if s == [] then 0
    else if s[0] == c then 0
    else 1 + IndexOf(s[1..], c)
  }

  /** `s.split(separator: sep)`: the maximal runs of characters other than
      `sep`, in order; empty runs (between adjacent separators or at either
      end) are dropped. */
  function Split(s: string, sep: char): (pieces: seq<string>)
    ensures forall i :: 0 <= i < |pieces| ==> pieces[i] != [] && sep !in pieces[i]
    decreases |s|
  {
    if s == [] then []
    else if s[0] == sep then Split(s[1..], sep)
    else
      var k := IndexOf(s, sep);
      [s[..k]] + Split(s[k..], sep)
  }

  /** The characters of `s` other than `sep`, in order. */
  function Without(s: string, sep: char): string {
    if s == [] then []
    else (if s[0] == sep then [] else [s[0]]) + Without(s[1..], sep)
  }

  /** All pieces laid end to end. */
  function Concat(pieces: seq<string>): string {
    if pieces == [] then [] else pieces[0] + Concat(pieces[1..])
  }

  /** The pieces with one `sep` between each neighbouring pair (Swift's
      `joined(separator:)`). */
  function Join(pieces: seq<string>, sep: char): string {
    if pieces == [] then []
    else if |pieces| == 1 then pieces[0]
    else pieces[0] + [sep] + Join(pieces[1..], sep)
  }

  lemma {:induction false} WithoutAppend(a: string, b: string, sep: char)
    ensures Without(a + b, sep) == Without(a, sep) + Without(b, sep)
    decreases |a|
  {
    if a == [] {
      assert a + b == b;
    } else {
      assert (a + b)[1..] == a[1..] + b;
      WithoutAppend(a[1..], b, sep);
    }
  }

  lemma {:induction false} WithoutFree(s: string, sep: char)
    requires sep !in s
    ensures Without(s, sep) == s
    decreases |s|
  {
    if s != [] {
      WithoutFree(s[1..], sep);
    }
  }

  /** Splitting loses exactly the separators: the pieces, laid end to end,
      are the input with every `sep` removed. */
  lemma {:induction false} SplitKeepsText(s: string, sep: char)
    ensures Concat(Split(s, sep)) == Without(s, sep)
    decreases |s|
  {
    if s == [] {
    } else if s[0] == sep {
      SplitKeepsText(s[1..], sep);
    } else {
      var k := IndexOf(s, sep);
      var pieces := Split(s, sep);
      assert pieces == [s[..k]] + Split(s[k..], sep);
      assert pieces[1..] == Split(s[k..], sep);
      SplitKeepsText(s[k..], sep);
      assert s == s[..k] + s[k..];
      WithoutAppend(s[..k], s[k..], sep);
      WithoutFree(s[..k], sep);
    }
  }

  /** Splitting yields no piece at all exactly when the input consists of
      separators only (the empty string included). */
  lemma {:induction false} SplitEmptyIff(s: string, sep: char)
    ensures Split(s, sep) == [] <==> forall i :: 0 <= i < |s| ==> s[i] == sep
    decreases |s|
  {
    if s != [] && s[0] == sep {
      SplitEmptyIff(s[1..], sep);
      assert forall i :: 1 <= i < |s| ==> s[i] == s[1..][i - 1];
    }
  }

  /** A leading separator is skipped. */
  lemma SplitSkip(t: string, sep: char)
    ensures Split([sep] + t, sep) == Split(t, sep)
  {
  }

  /** A separator-free, non-empty prefix followed by a separator is the
      first piece. */
  lemma SplitCons(p: string, t: string, sep: char)
    requires p != [] && sep !in p
    ensures Split(p + [sep] + t, sep) == [p] + Split(t, sep)
  {
    var s := p + [sep] + t;
    assert s[0] == p[0];
    var k := IndexOf(s, sep);
    assert s[|p|] == sep;
    assert s[..|p|] == p;
    assert k == |p|;
    assert s[k..] == [sep] + t;
    SplitSkip(t, sep);
  }

  /** A separator-free, non-empty string is a single piece. */
  lemma SplitSingle(p: string, sep: char)
    requires p != [] && sep !in p
    ensures Split(p, sep) == [p]
  {
    var k := IndexOf(p, sep);
    assert k == |p|;
    assert p[..k] == p;
  }

  /** Round trip: splitting the join of non-empty, separator-free pieces
      gives the pieces back. */
  lemma {:induction false} SplitJoin(pieces: seq<string>, sep: char)
    requires forall i :: 0 <= i < |pieces| ==> pieces[i] != [] && sep !in pieces[i]
    ensures Split(Join(pieces, sep), sep) == pieces
    decreases |pieces|
  {
    if pieces == [] {
    } else if |pieces| == 1 {
      SplitSingle(pieces[0], sep);
    } else {
      SplitJoin(pieces[1..], sep);
      SplitCons(pieces[0], Join(pieces[1..], sep), sep);
      assert pieces == [pieces[0]] + pieces[1..];
    }
  }

  /** `s.hasSuffix(suffix)`. */
  predicate HasSuffix(s: string, suffix: string): (b: bool)
    ensures b <==> |suffix| <= |s| && s == s[..|s| - |suffix|] + suffix
  {
    assert |suffix| <= |s| ==> s == s[..|s| - |suffix|] + s[|s| - |suffix|..];
    |suffix| <= |s| && s[|s| - |suffix|..] == suffix
  }

  const IntMin: int := -0x8000_0000_0000_0000
  const IntMax: int := 0x7FFF_FFFF_FFFF_FFFF

  predicate IsDigit(c: char) {
    '0' <= c <= '9'
  }

  predicate AllDigits(s: string) {
    forall i :: 0 <= i < |s| ==> IsDigit(s[i])
  }

  /** The value of a string of decimal digits, most significant first. */
  function DigitsValue(ds: string): (v: nat)
    requires AllDigits(ds)
    decreases |ds|
  {
    if ds == [] then 0
    else DigitsValue(ds[..|ds| - 1]) * 10 + (ds[|ds| - 1] as int - '0' as int)
  }

  /** `Int(text)` on a 64-bit platform: an optional `+` or `-` sign, then one
      or more ASCII digits, with a value that fits in `Int`; anything else
      is `nil`. */
  function ParseInt(text: string): (r: Option<int>)
    ensures r.Some? ==> IntMin <= r.value <= IntMax
    ensures r.Some? ==> exists i :: 0 <= i < |text| && IsDigit(text[i])
    ensures r.Some? ==> IsSignedDigitRun(text)
  {
    var signed := |text| > 0 && (text[0] == '+' || text[0] == '-');
    var digits := if signed then text[1..] else text;
    if digits == [] || !AllDigits(digits) then None
    else
      var magnitude: int := DigitsValue(digits);
      var v: int := if signed && text[0] == '-' then -magnitude else magnitude;
      if IntMin <= v <= IntMax then
        assert IsDigit(text[|text| - 1]);
        Some(v)
      else None
  }

  /** The decimal rendering of `n`, with no sign and no leading zero. */
  function Decimal(n: nat): (s: string)
    ensures s != [] && AllDigits(s)
  {
    if n < 10 then ['0' + n as char]
    else Decimal(n / 10) + ['0' + (n % 10) as char]
  }

  /** `Decimal` and `DigitsValue` are inverse. */
  lemma {:induction false} DecimalValue(n: nat)
    ensures DigitsValue(Decimal(n)) == n
  {
    if n >= 10 {
      var s := Decimal(n);
      assert s[..|s| - 1] == Decimal(n / 10);
      DecimalValue(n / 10);
    }
  }

  /** Any non-empty digit string that fits in `Int` parses to its value;
      leading zeros are accepted. */
  lemma ParseDigits(ds: string)
    requires ds != [] && AllDigits(ds) && DigitsValue(ds) <= IntMax
    ensures ParseInt(ds) == Some(DigitsValue(ds))
  {
  }

  /** Round trip: every non-negative `Int` parses back from its decimal
      rendering. */
  lemma ParseDecimal(n: nat)
    requires n <= IntMax
    ensures ParseInt(Decimal(n)) == Some(n)
  {
    DecimalValue(n);
    ParseDigits(Decimal(n));
  }

  /** Strings that are not a signed digit run do not parse. */
  lemma ParseRejects(text: string)
    requires text == [] || text == "+" || text == "-" || (exists i :: 0 <= i < |text| && text[i] == '.')
    ensures ParseInt(text) == None
  {
  }

  /** A run of ASCII digits, possibly after one `+` or `-`: the shape
      `Int(_:)` accepts. */
  predicate IsSignedDigitRun(text: string) {
    if |text| > 0 && (text[0] == '+' || text[0] == '-') then |text| > 1 && AllDigits(text[1..])
    else |text| > 0 && AllDigits(text)
  }

  /** Text of any other shape does not parse. */
  lemma ParseRejectsShape(text: string)
    requires !IsSignedDigitRun(text)
    ensures ParseInt(text) == None
  {
  }

  /** A leading `+` changes nothing; a leading `-` negates the value, which
      then fits down to `Int.min`, one further than `Int.max` reaches. */
  lemma ParseSigned(ds: string)
    requires ds != [] && AllDigits(ds)
    ensures ParseInt("+" + ds) == ParseInt(ds)
    ensures ParseInt("-" + ds) == if DigitsValue(ds) <= -IntMin then Some(-(DigitsValue(ds) as int)) else None
  {
    assert ("+" + ds)[1..] == ds;
    assert ("-" + ds)[1..] == ds;
    assert IsDigit(ds[0]);
  }

  /** A digit run whose value exceeds `Int.max` does not parse. */
  lemma ParseRejectsOverflow(ds: string)
    requires ds != [] && AllDigits(ds) && DigitsValue(ds) > IntMax
    ensures ParseInt(ds) == None
  {
    assert IsDigit(ds[0]);
  }
}
