/**
 * The unit table and the "digits followed by one unit letter" reading of a
 * size, shared by the import of a CSV row and by a size query.
 */
module Units {
  import opened Wrappers
  import opened Strings
  import opened Numbers

  /** The multiplier of each unit letter: kilo, mega and giga bytes. */
  const UnitsDict: map<char, nat> := map['K' := 1000, 'M' := 1000000, 'G' := 1000000000]

  /** Why a size string could not be read. */
  datatype SizeError =
    | BadNumber    // the part before the unit letter is not a number (`float()` fails)
    | UnknownUnit  // the unit letter is not in the table (`units_dict[...]` fails)

  /** The units are K, M and G, each a thousand times the one before, starting at a thousand bytes. */
  lemma UnitsDictScale()
    ensures UnitsDict.Keys == {'K', 'M', 'G'}
    ensures UnitsDict['K'] == 1000 && UnitsDict['M'] == 1000 * UnitsDict['K']
    ensures UnitsDict['G'] == 1000 * UnitsDict['M']
  {
  }

  /**
   * A size such as "2M": everything but the last character is the number,
   * the last character (capitalised) names the unit, and the result is
   * their product in bytes. The number is read before the unit is looked
   * up. Only strings of two characters or more are read; an unknown unit
   * is a last character that, capitalised, is not in the table; a number
   * that cannot be read is reported before the unit is looked at.
   */
  function ParseSize(s: string): (r: Result<nat, SizeError>)
    ensures r.Success? ==> |s| >= 2
    ensures r == Failure(UnknownUnit) ==> |s| >= 2 && Capitalize(s[|s| - 1]) !in UnitsDict
    ensures ParseDecimal(DropLast(s)).None? ==> r == Failure(BadNumber)
  {
    match ParseDecimal(DropLast(s))
    case None => Failure(BadNumber)
    case Some(v) =>
      var unit := Capitalize(s[|s| - 1]);
      if unit in UnitsDict then
        Success(v * UnitsDict[unit])
      else
        Failure(UnknownUnit)
  }

  /**
   * A number followed by a unit letter: K, M and G in either case multiply
   * the number by 10^3, 10^6 and 10^9, and any other letter is refused.
   */
  lemma ParseSizeOf(d: string, u: char)
    requires ParseDecimal(d).Some?
    ensures u == 'K' || u == 'k' ==> ParseSize(d + [u]) == Success(ParseDecimal(d).value * 1000)
    ensures u == 'M' || u == 'm' ==> ParseSize(d + [u]) == Success(ParseDecimal(d).value * 1000000)
    ensures u == 'G' || u == 'g' ==> ParseSize(d + [u]) == Success(ParseDecimal(d).value * 1000000000)
    ensures u !in "KkMmGg" ==> ParseSize(d + [u]) == Failure(UnknownUnit)
  {
    assert DropLast(d + [u]) == d;
  }

  /** Every size that can be read is a whole number of kilobytes. */
  lemma ParseSizeWholeKilobytes(s: string)
    requires ParseSize(s).Success?
    ensures ParseSize(s).value % 1000 == 0
  {
    var v := ParseDecimal(DropLast(s)).value;
    var m := UnitsDict[Capitalize(s[|s| - 1])];
    assert v * m == (v * (m / 1000)) * 1000;
  }

  /** The unit letter is read without regard to case. */
  lemma ParseSizeCaseInsensitive(d: string, u: char)
    ensures ParseSize(d + [u]) == ParseSize(d + [Capitalize(u)])
  {
    assert DropLast(d + [u]) == d == DropLast(d + [Capitalize(u)]);
  }

  /** Worked cases: "2M" and "200k" are read. */
  lemma ParseSizeReads()
    ensures ParseSize("2M") == Success(2000000)
    ensures ParseSize("200k") == Success(200000)
  {
    assert DigitsValue("2") == 2 by { assert "2"[..0] == ""; }
    ParseDigits("2");
    ParseSizeOf("2", 'M');
    assert "2" + ['M'] == "2M";
    assert DigitsValue("200") == 200 by {
      assert "200"[..2] == "20";
      assert "20"[..1] == "2";
      assert "2"[..0] == "";
    }
    ParseDigits("200");
    ParseSizeOf("200", 'k');
    assert "200" + ['k'] == "200k";
  }

  /** Whitespace around the number is ignored, as `float()` ignores it. */
  lemma ParseSizeIgnoresSpaces()
    ensures ParseSize(" 7 G") == Success(7000000000)
  {
    assert Strip(" 7 ") == "7" by {
      assert LeadingSpaces(" 7 ") == 1 by { assert " 7 "[1..] == "7 "; }
      assert " 7 "[1..] == "7 ";
      assert TrailingSpaces("7 ") == 1 by { assert "7 "[..1] == "7"; }
    }
    assert DigitsValue("7") == 7 by { assert "7"[..0] == ""; }
    ParseSizeOf(" 7 ", 'G');
    assert " 7 " + ['G'] == " 7 G";
  }

  /** Worked cases: "5T" names no unit; "K" and "" have no number. */
  lemma ParseSizeRefuses()
    ensures ParseSize("5T") == Failure(UnknownUnit)
    ensures ParseSize("K") == Failure(BadNumber)
    ensures ParseSize("") == Failure(BadNumber)
  {
    ParseDigits("5");
    ParseSizeOf("5", 'T');
    assert "5" + ['T'] == "5T";
    assert DropLast("K") == "";
    assert Strip("") == "";
  }
}
