/** How the viewer picks and orders its input files: a numeric sort key
    parsed out of each file name, a filter on the `.dcm` extension, and an
    ascending sort by that key. */
module FileOrder {
  import opened Wrappers
  import opened SwiftText

  /** `extractNumber(from:)` exactly as written: split the name on `-`; if
      there is a second piece, split it on `.` and parse the first piece as
      an `Int`, falling back to 0. When the second piece is made of dots
      only, its split is empty and subscripting it with `[0]` traps. */
  function ExtractNumberAsWritten(filename: string): (r: Trapping<int>)
    ensures r.Trap? <==>
      |Split(filename, '-')| > 1 &&
      forall i :: 0 <= i < |Split(filename, '-')[1]| ==> Split(filename, '-')[1][i] == '.'
    ensures r.Value? ==> IntMin <= r.value <= IntMax
  {
    var components := Split(filename, '-');
    if |components| > 1 then
      var dotPieces := Split(components[1], '.');
      SplitEmptyIff(components[1], '.');
      if dotPieces == [] then Trap("Index out of range")
      else match ParseInt(dotPieces[0])
        case Some(number) => Value(number)
        case None => Value(0)
    else Value(0)
  }

  /** The sort key as evidently intended: the same parse, with the
      dots-only second piece falling back to 0 like every other
      unparsable name. */
  function ExtractNumber(filename: string): (n: int)
    ensures IntMin <= n <= IntMax
  {
    var components := Split(filename, '-');
    if |components| > 1 then
      var dotPieces := Split(components[1], '.');
      if dotPieces == [] then 0
      else match ParseInt(dotPieces[0])
        case Some(number) => number
        case None => 0
    else 0
  }

  /** The corrected key agrees with the code as written wherever the code
      does not trap, and is 0 where it does. */
  lemma ExtractNumberMatchesAsWritten(filename: string)
    ensures ExtractNumberAsWritten(filename).Value? ==>
      ExtractNumber(filename) == ExtractNumberAsWritten(filename).value
    ensures ExtractNumberAsWritten(filename).Trap? ==> ExtractNumber(filename) == 0
  {
  }

  /** A non-empty, `-`-free `piece` followed by nothing or by a `-` is the
      first `-` piece. */
  lemma FirstPiece(piece: string, rest: string)
    requires piece != [] && '-' !in piece
    requires rest == [] || rest[0] == '-'
    ensures |Split(piece + rest, '-')| > 0 && Split(piece + rest, '-')[0] == piece
  {
    if rest == [] {
      assert piece + rest == piece;
      SplitSingle(piece, '-');
    } else {
      assert piece + rest == piece + ['-'] + rest[1..];
      SplitCons(piece, rest[1..], '-');
    }
  }

  /** The second `-` piece of `stem-piece…` is `piece`, whatever follows
      from the next `-` on. */
  lemma SecondPiece(stem: string, piece: string, rest: string)
    requires stem != [] && '-' !in stem
    requires piece != [] && '-' !in piece
    requires rest == [] || rest[0] == '-'
    ensures |Split(stem + "-" + piece + rest, '-')| > 1
    ensures Split(stem + "-" + piece + rest, '-')[1] == piece
  {
    var after := piece + rest;
    assert stem + "-" + piece + rest == stem + ['-'] + after;
    SplitCons(stem, after, '-');
    FirstPiece(piece, rest);
  }

  /** When the second `-` piece starts with a run of decimal digits that
      fits in `Int` and ends there or continues with a `.`, the key is the
      value of that run. */
  lemma KeyOfSecondPiece(filename: string, digits: string, tail: string)
    requires |Split(filename, '-')| > 1 && Split(filename, '-')[1] == digits + tail
    requires digits != [] && AllDigits(digits) && DigitsValue(digits) <= IntMax
    requires tail == [] || tail[0] == '.'
    ensures ExtractNumber(filename) == DigitsValue(digits)
  {
    assert '.' !in digits by {
      assert forall i :: 0 <= i < |digits| ==> IsDigit(digits[i]);
    }
    if tail == [] {
      assert digits + tail == digits;
      SplitSingle(digits, '.');
    } else {
      assert digits + tail == digits + ['.'] + tail[1..];
      SplitCons(digits, tail[1..], '.');
    }
    ParseDigits(digits);
  }

  /** A name of the form `X-N.dcm`, with a non-empty first piece `X` free of `-`
      and a run of decimal digits `N` that fits in `Int`, has key `N`. */
  lemma ExtractNumberOfPattern(stem: string, digits: string)
    requires stem != [] && '-' !in stem
    requires digits != [] && AllDigits(digits) && DigitsValue(digits) <= IntMax
    ensures ExtractNumber(stem + "-" + digits + ".dcm") == DigitsValue(digits)
  {
    var piece := digits + ".dcm";
    assert '-' !in piece by {
      assert forall i :: 0 <= i < |digits| ==> IsDigit(piece[i]);
    }
    SecondPiece(stem, piece, []);
    assert stem + "-" + digits + ".dcm" == stem + "-" + piece + [];
    KeyOfSecondPiece(stem + "-" + digits + ".dcm", digits, ".dcm");
  }

  /** A name without `-` has a single piece, or none, and key 0. */
  lemma ExtractNumberWithoutDash(filename: string)
    requires '-' !in filename
    ensures ExtractNumber(filename) == 0
  {
    if filename != [] {
      SplitSingle(filename, '-');
    }
  }

  /** `"scan.dcm"` has no second piece and key 0. */
  lemma ExtractNumberNoSecondPieceExample()
    ensures ExtractNumber("scan.dcm") == 0
  {
    ExtractNumberWithoutDash("scan.dcm");
  }

  /** In a name `X-W…` whose second piece starts with a `.`-free word `W`
      followed by nothing or by a `.`, the key is `Int(W)`, or 0 when `W`
      does not parse. */
  lemma KeyOfFirstDotPiece(stem: string, word: string, ext: string, rest: string)
    requires stem != [] && '-' !in stem
    requires word != [] && '-' !in word && '.' !in word
    requires '-' !in ext && (ext == [] || ext[0] == '.')
    requires rest == [] || rest[0] == '-'
    ensures ExtractNumber(stem + "-" + word + ext + rest) ==
      match ParseInt(word) case Some(n) => n case None => 0
  {
    var piece := word + ext;
    assert '-' !in piece;
    SecondPiece(stem, piece, rest);
    assert stem + "-" + word + ext + rest == stem + "-" + piece + rest;
    if ext == [] {
      assert piece == word;
      SplitSingle(word, '.');
    } else {
      assert piece == word + ['.'] + ext[1..];
      SplitCons(word, ext[1..], '.');
    }
  }

  /** A second piece whose first `.`-piece is not a signed digit run gives
      key 0. */
  lemma ExtractNumberNonNumeric(stem: string, word: string, ext: string, rest: string)
    requires stem != [] && '-' !in stem
    requires word != [] && '-' !in word && '.' !in word && !IsSignedDigitRun(word)
    requires '-' !in ext && (ext == [] || ext[0] == '.')
    requires rest == [] || rest[0] == '-'
    ensures ExtractNumber(stem + "-" + word + ext + rest) == 0
  {
    KeyOfFirstDotPiece(stem, word, ext, rest);
    ParseRejectsShape(word);
  }

  /** A digit run beyond `Int.max` does not parse, so it gives key 0. */
  lemma ExtractNumberOverflow(stem: string, digits: string, ext: string, rest: string)
    requires stem != [] && '-' !in stem
    requires digits != [] && AllDigits(digits) && DigitsValue(digits) > IntMax
    requires '-' !in ext && (ext == [] || ext[0] == '.')
    requires rest == [] || rest[0] == '-'
    ensures ExtractNumber(stem + "-" + digits + ext + rest) == 0
  {
    assert '-' !in digits && '.' !in digits by {
      assert forall i :: 0 <= i < |digits| ==> IsDigit(digits[i]);
    }
    KeyOfFirstDotPiece(stem, digits, ext, rest);
    ParseRejectsOverflow(digits);
  }

  /** `"a-1x.dcm"` has a second piece that is not a number, and key 0. */
  lemma ExtractNumberNonNumericExample()
    ensures ExtractNumber("a-1x.dcm") == 0
  {
    assert !IsSignedDigitRun("1x") by { assert !IsDigit("1x"[1]); }
    ExtractNumberNonNumeric("a", "1x", ".dcm", []);
    assert "a" + "-" + "1x" + ".dcm" + [] == "a-1x.dcm";
  }

  /** The example of the doc comment: `"1-01.dcm"` has key 1. */
  lemma ExtractNumberDocExample()
    ensures ExtractNumber("1-01.dcm") == 1
  {
    assert DigitsValue("01") == 1 by {
      assert "01"[..1] == "0";
      assert DigitsValue("0") == 0 by { assert "0"[..0] == ""; }
    }
    ExtractNumberOfPattern("1", "01");
    assert "1" + "-" + "01" + ".dcm" == "1-01.dcm";
  }

  /** Pieces after the second are ignored: `X-N-…` has key `N`. */
  lemma ExtractNumberIgnoresLaterPieces(stem: string, digits: string, rest: string)
    requires stem != [] && '-' !in stem
    requires digits != [] && AllDigits(digits) && DigitsValue(digits) <= IntMax
    requires rest == [] || rest[0] == '-'
    ensures ExtractNumber(stem + "-" + digits + rest) == DigitsValue(digits)
  {
    assert '-' !in digits by {
      assert forall i :: 0 <= i < |digits| ==> IsDigit(digits[i]);
    }
    SecondPiece(stem, digits, rest);
    assert digits + [] == digits;
    KeyOfSecondPiece(stem + "-" + digits + rest, digits, []);
  }

  /** `split` drops empty pieces, so a doubled `-` after the first piece
      reads like a single one. */
  lemma ExtractNumberSkipsEmptyPiece(stem: string, tail: string)
    requires stem != [] && '-' !in stem
    ensures ExtractNumber(stem + "--" + tail) == ExtractNumber(stem + "-" + tail)
  {
    assert stem + "--" + tail == stem + ['-'] + (['-'] + tail);
    assert stem + "-" + tail == stem + ['-'] + tail;
    SplitCons(stem, ['-'] + tail, '-');
    SplitCons(stem, tail, '-');
    SplitSkip(tail, '-');
    assert Split(stem + "--" + tail, '-') == Split(stem + "-" + tail, '-');
  }

  /** A leading `-` is dropped by `split`, so a name `-N.dcm` has a single
      piece and key 0. */
  lemma ExtractNumberLeadingDash(tail: string)
    requires tail != [] && '-' !in tail
    ensures ExtractNumber("-" + tail) == 0
  {
    assert "-" + tail == ['-'] + tail;
    SplitSkip(tail, '-');
    SplitSingle(tail, '-');
  }

  /** Every leading `-` is dropped by `split`, so a name starting with `-`
      has the key of the name without it. */
  lemma ExtractNumberLeadingDashSkipped(tail: string)
    ensures ExtractNumber("-" + tail) == ExtractNumber(tail)
  {
    assert "-" + tail == ['-'] + tail;
    SplitSkip(tail, '-');
  }

  /** `split` on `.` drops the empty piece in front of a leading `.`, so a
      second piece `.w…` reads like `w…`: the key is not cut at the first
      `.`. */
  lemma ExtractNumberSkipsLeadingDot(stem: string, word: string, rest: string)
    requires stem != [] && '-' !in stem
    requires word != [] && '-' !in word
    requires rest == [] || rest[0] == '-'
    ensures ExtractNumber(stem + "-." + word + rest) == ExtractNumber(stem + "-" + word + rest)
  {
    assert stem + "-." + word + rest == stem + "-" + (['.'] + word) + rest;
    assert '-' !in ['.'] + word;
    SecondPiece(stem, ['.'] + word, rest);
    SecondPiece(stem, word, rest);
    SplitSkip(word, '.');
  }

  /** `"a-.5.dcm"` has key 5, not 0. */
  lemma ExtractNumberLeadingDotExample()
    ensures ExtractNumber("a-.5.dcm") == 5
  {
    ExtractNumberSkipsLeadingDot("a", "5.dcm", []);
    assert "a" + "-." + "5.dcm" + [] == "a-.5.dcm";
    assert DigitsValue("5") == 5 by { assert "5"[..0] == ""; }
    ExtractNumberOfPattern("a", "5");
    assert "a" + "-" + "5.dcm" + [] == "a" + "-" + "5" + ".dcm";
  }

  /** `extractNumber` as written traps on every name whose second `-`
      piece is made of dots only. */
  lemma {:induction false} ExtractNumberTrapsOnDotPiece(stem: string, dots: string, rest: string)
    requires stem != [] && '-' !in stem
    requires dots != [] && forall i :: 0 <= i < |dots| ==> dots[i] == '.'
    requires rest == [] || rest[0] == '-'
    ensures ExtractNumberAsWritten(stem + "-" + dots + rest).Trap?
    ensures ExtractNumber(stem + "-" + dots + rest) == 0
  {
    assert '-' !in dots by {
      assert forall i :: 0 <= i < |dots| ==> dots[i] != '-';
    }
    SecondPiece(stem, dots, rest);
    SplitEmptyIff(dots, '.');
  }

  /** A name on which `extractNumber` as written traps, although it ends in
      `.dcm` and so passes the filter. */
  lemma ExtractNumberTrapsOnDots()
    ensures HasSuffix("a-..-1.dcm", ".dcm")
    ensures ExtractNumberAsWritten("a-..-1.dcm").Trap?
    ensures ExtractNumber("a-..-1.dcm") == 0
  {
    ExtractNumberTrapsOnDotPiece("a", "..", "-1.dcm");
    assert "a" + "-" + ".." + "-1.dcm" == "a-..-1.dcm";
  }

  /** `hasSuffix(".dcm")`. */
  predicate IsDicomName(name: string): (b: bool)
    ensures b <==> |name| >= 4 && name == name[..|name| - 4] + ".dcm"
  {
    HasSuffix(name, ".dcm")
  }

  /** `files.filter { $0.hasSuffix(".dcm") }`: every `.dcm` name, as often as
      it occurs in the listing, and nothing else. */
  function DicomNames(files: seq<string>): (r: seq<string>)
    ensures forall i :: 0 <= i < |r| ==> IsDicomName(r[i])
    ensures forall f :: multiset(r)[f] == if IsDicomName(f) then multiset(files)[f] else 0
  {
    if files == [] then []
    else
      assert files == [files[0]] + files[1..];
      (if IsDicomName(files[0]) then [files[0]] else []) + DicomNames(files[1..])
  }

  /** Ascending by `key`: no name precedes one with a smaller key. */
  ghost predicate SortedBy(s: seq<string>, key: string -> int) {
    forall i, j :: 0 <= i < j < |s| ==> key(s[i]) <= key(s[j])
  }

  /** A lower bound on the keys of `s` and of `x` bounds the keys of any
      arrangement of them. */
  lemma KeysBounded(r: seq<string>, s: seq<string>, x: string, key: string -> int, lo: int)
    requires multiset(r) == multiset(s) + multiset{x}
    requires lo <= key(x) && forall k :: 0 <= k < |s| ==> lo <= key(s[k])
    ensures forall j :: 0 <= j < |r| ==> lo <= key(r[j])
  {
    forall j | 0 <= j < |r|
      ensures lo <= key(r[j])
    {
      assert r[j] in multiset(r);
      if r[j] != x {
        assert r[j] in multiset(s);
        var k :| 0 <= k < |s| && s[k] == r[j];
      }
    }
  }

  /** Insertion of one name into a list already ascending by `key`. */
  function Insert(x: string, s: seq<string>, key: string -> int): (r: seq<string>)
    requires SortedBy(s, key)
    ensures multiset(r) == multiset(s) + multiset{x}
    ensures SortedBy(r, key)
  {
    if s == [] then [x]
    else if key(x) <= key(s[0]) then [x] + s
    else
      var rest := Insert(x, s[1..], key);
      assert s == [s[0]] + s[1..];
      KeysBounded(rest, s[1..], x, key, key(s[0]));
      [s[0]] + rest
  }

  /** A sort ascending by `key`: a permutation of the input in which no
      name precedes one with a smaller key. Names with equal keys may come
      out in any order. */
  function SortBy(s: seq<string>, key: string -> int): (r: seq<string>)
    ensures multiset(r) == multiset(s)
    ensures SortedBy(r, key)
  {
    if s == [] then []
    else
      assert s == [s[0]] + s[1..];
      Insert(s[0], SortBy(s[1..], key), key)
  }

  /** The names `loadDicomFiles` goes on to read, in reading order. */
  function SelectDicomFiles(files: seq<string>): (r: seq<string>)
    ensures forall f :: multiset(r)[f] == if IsDicomName(f) then multiset(files)[f] else 0
    ensures forall f :: f in r <==> f in files && IsDicomName(f)
    ensures SortedBy(r, ExtractNumber)
  {
    SortBy(DicomNames(files), ExtractNumber)
  }

  /** Where no selected name makes `extractNumber` as written trap, the
      corrected order is also ascending by the code's own key. A listing
      with such a name traps in the code's comparator instead. */
  lemma SelectedAscendAsWritten(files: seq<string>)
    requires forall k :: 0 <= k < |SelectDicomFiles(files)| ==>
      ExtractNumberAsWritten(SelectDicomFiles(files)[k]).Value?
    ensures forall i, j :: 0 <= i < j < |SelectDicomFiles(files)| ==>
      ExtractNumberAsWritten(SelectDicomFiles(files)[i]).value <=
      ExtractNumberAsWritten(SelectDicomFiles(files)[j]).value
  {
    var r := SelectDicomFiles(files);
    forall i, j | 0 <= i < j < |r|
      ensures ExtractNumberAsWritten(r[i]).value <= ExtractNumberAsWritten(r[j]).value
    {
      ExtractNumberMatchesAsWritten(r[i]);
      ExtractNumberMatchesAsWritten(r[j]);
    }
  }
}
