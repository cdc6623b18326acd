/** Worked examples of the format-string model on short strings. */
module FormatExamples {
  import opened Wrappers
  import opened FormatErrors
  import opened FormatFlags
  import opened FormatPattern
  import opened FormatSpecifier
  import opened Formatter
  import PoValidator

  /** A string that is one whole specifier parses to that specifier. */
  lemma ParseSingle(s: string, m: RawMatch)
    requires |s| > 0 && MatchAt(s, 0) == Some(m) && m.end == |s|
    ensures ParseFormat(s) == if Decode(s, m).Success? then Success([Spec(Decode(s, m).value, 0, |s|)]) else Failure(Decode(s, m).error)
  {
    assert Find(s, 0) == Some(m);
    ParseFromFound(s, 0, m, []);
    assert Formatter.ParseFrom(s, |s|) == Success([]);
    if Decode(s, m).Success? {
      var seg := Spec(Decode(s, m).value, 0, |s|);
      assert [] + [] + [seg] + [] == [seg];
    }
  }

  lemma PercentS()
    ensures ParseFormat("%s") == Success([Spec(Specifier(0, NoFlags, -1, -1, false, 's'), 0, 2)])
  {
    var s := "%s";
    PlainMatch(s, 0);
    PlainString();
    ParseSingle(s, RawMatch(0, 2, None, Span(1, 1), None, None, None, 1));
  }

  /** "%d": index 0, the default. */
  lemma PercentD()
    ensures ParseFormat("%d") == Success([Spec(Specifier(0, NoFlags, -1, -1, false, 'd'), 0, 2)])
  {
    var s := "%d";
    PlainMatch(s, 0);
    PlainDecimal();
    ParseSingle(s, RawMatch(0, 2, None, Span(1, 1), None, None, None, 1));
  }

  /** "%1$d": explicit index 1. */
  lemma PercentOneD()
    ensures ParseFormat("%1$d") == Success([Spec(Specifier(1, NoFlags, -1, -1, false, 'd'), 0, 4)])
  {
    var s := "%1$d";
    var m := RawMatch(0, 4, Some(Span(1, 3)), Span(3, 3), None, None, None, 3);
    PercentOneDMatch(s, m);
    hide *;
    ParseSingle(s, m);
  }

  lemma PercentOneDMatch(s: string, m: RawMatch)
    requires s == "%1$d" && m == RawMatch(0, 4, Some(Span(1, 3)), Span(3, 3), None, None, None, 3)
    ensures MatchAt(s, 0) == Some(m) && m.end == |s|
    ensures Decode(s, m) == Success(Specifier(1, NoFlags, -1, -1, false, 'd'))
  {
    assert DigitsEnd(s, 1) == 2;
    assert IndexAt(s, 0) == Some(Span(1, 3));
    assert FlagsEnd(s, 3) == 3;
    assert DigitsEnd(s, 3) == 3;
    assert WidthAt(s, 3) == None;
    assert PrecisionAt(s, 3) == None;
    assert MatchAt(s, 0) == Some(m);
    assert Parsed(s, 3, 3) == Success(NoFlags);
    assert s[1..2] == "1" && "1"[..0] == [];
    assert Number(s, 1, 2) == 1;
  }

  /** "%d" and "%1$d" print the same argument, yet their specifiers differ
      in the index, so a translation may not swap one for the other. */
  lemma ImplicitIndexIsNotExplicit()
    ensures PoValidator.FormatsMatch("%d", "%1$d") == Fail(PoValidator.FormatListsMismatch)
  {
    PercentD();
    PercentOneD();
    assert PoValidator.SpecsOf([Spec(Specifier(0, NoFlags, -1, -1, false, 'd'), 0, 2)]) == [Specifier(0, NoFlags, -1, -1, false, 'd')];
    assert PoValidator.SpecsOf([Spec(Specifier(1, NoFlags, -1, -1, false, 'd'), 0, 4)]) == [Specifier(1, NoFlags, -1, -1, false, 'd')];
    assert multiset([Specifier(0, NoFlags, -1, -1, false, 'd')])[Specifier(0, NoFlags, -1, -1, false, 'd')] == 1;
  }

  /** "%S" is "%s" with the Uppercase flag: the two do not match. */
  lemma UpperCaseS()
    ensures ParseFormat("%S") == Success([Spec(Specifier(0, Uppercase, -1, -1, false, 's'), 0, 2)])
  {
    var s := "%S";
    PlainMatch(s, 0);
    PlainUpperString();
    ParseSingle(s, RawMatch(0, 2, None, Span(1, 1), None, None, None, 1));
  }

  lemma PlainUpperString()
    ensures Convert(0, NoFlags, -1, -1, false, 'S') == Success(Specifier(0, Uppercase, -1, -1, false, 's'))
  {
    assert NoFlags.Add(Uppercase) == Uppercase;
  }

  /** '%', one flag character other than '0', and a conversion letter
      other than t/T: the flags group is that one character. */
  lemma OneFlagMatch(s: string, p: nat)
    requires p + 2 < |s| && s[p] == '%' && IsFlagChar(s[p + 1]) && s[p + 1] != '0'
    requires IsConversionChar(s[p + 2]) && !IsDateTimePrefix(s[p + 2]) && s[p + 2] != '%'
    ensures MatchAt(s, p) == Some(RawMatch(p, p + 3, None, Span(p + 1, p + 2), None, None, None, p + 2))
    ensures FlagOf(s[p + 1]).Some? && Parsed(s, p + 1, p + 2) == Success(FlagOf(s[p + 1]).value)
  {
    assert DigitsEnd(s, p + 1) == p + 1;
    assert FlagsEnd(s, p + 2) == p + 2;
    assert FlagsEnd(s, p + 1) == p + 2;
    assert IndexAt(s, p) == None;
    assert WidthAt(s, p + 2) == None;
    assert PrecisionAt(s, p + 2) == None;
    assert FormatFlags.ParseFrom(s, p + 2, p + 2, FlagOf(s[p + 1]).value) == Success(FlagOf(s[p + 1]).value);
  }

  /** "%-d": left justification needs a width. */
  lemma LeftJustifyWithoutWidth()
    ensures ParseFormat("%-d") == Failure(MissingFormatWidth("%-d"))
  {
    var s := "%-d";
    var m := RawMatch(0, 3, None, Span(1, 2), None, None, None, 2);
    OneFlagMatch(s, 0);
    assert Parsed(s, 1, 2) == Success(LeftJustify);
    LeftJustifyPrinted();
    ParseSingle(s, m);
  }

  lemma LeftJustifyPrinted()
    ensures ToString(Specifier(0, LeftJustify, -1, -1, false, 'd')) == "%-d"
  {
    assert LeftJustify.Remove(Uppercase).ToString() == "-";
  }

  /** "%#b": '#' is refused for the general conversions other than 's'. */
  lemma AlternateBoolean()
    ensures ParseFormat("%#b") == Failure(FormatFlagsConversionMismatch("#", 'b'))
  {
    var s := "%#b";
    var m := RawMatch(0, 3, None, Span(1, 2), None, None, None, 2);
    OneFlagMatch(s, 0);
    assert Parsed(s, 1, 2) == Success(Alternate);
    assert Alternate.ToString() == "#";
    ParseSingle(s, m);
  }

  /** "%1$-5d" parses to index 1, '-' and width 5. */
  lemma IndexedLeftJustified()
    ensures ParseFormat("%1$-5d") == Success([Spec(Specifier(1, LeftJustify, 5, -1, false, 'd'), 0, 6)])
  {
    var s := "%1$-5d";
    var m := RawMatch(0, 6, Some(Span(1, 3)), Span(3, 4), Some(Span(4, 5)), None, None, 5);
    IndexedLeftJustifiedMatch();
    hide *;
    ParseSingle(s, m);
  }

  lemma IndexedLeftJustifiedMatch()
    ensures MatchAt("%1$-5d", 0) == Some(RawMatch(0, 6, Some(Span(1, 3)), Span(3, 4), Some(Span(4, 5)), None, None, 5))
    ensures Decode("%1$-5d", RawMatch(0, 6, Some(Span(1, 3)), Span(3, 4), Some(Span(4, 5)), None, None, 5)) ==
      Success(Specifier(1, LeftJustify, 5, -1, false, 'd'))
  {
    var s := "%1$-5d";
    var m := RawMatch(0, 6, Some(Span(1, 3)), Span(3, 4), Some(Span(4, 5)), None, None, 5);
    assert DigitsEnd(s, 1) == 2;
    assert IndexAt(s, 0) == Some(Span(1, 3));
    assert FlagsEnd(s, 4) == 4;
    assert FlagsEnd(s, 3) == 4;
    assert DigitsEnd(s, 5) == 5;
    assert DigitsEnd(s, 4) == 5;
    assert WidthAt(s, 4) == Some(Span(4, 5));
    assert PrecisionAt(s, 5) == None;
    assert MatchAt(s, 0) == Some(m);
    IndexedLeftJustifiedDecoded(s, m);
  }

  lemma IndexedLeftJustifiedDecoded(s: string, m: RawMatch)
    requires s == "%1$-5d" && m == RawMatch(0, 6, Some(Span(1, 3)), Span(3, 4), Some(Span(4, 5)), None, None, 5)
    requires MatchAt(s, 0) == Some(m)
    ensures Decode(s, m) == Success(Specifier(1, LeftJustify, 5, -1, false, 'd'))
  {
    assert FormatFlags.ParseFrom(s, 4, 4, LeftJustify) == Success(LeftJustify);
    assert Parsed(s, 3, 4) == Success(LeftJustify);
    assert s[1..2] == "1" && s[4..5] == "5";
    assert "1"[..0] == [] && "5"[..0] == [];
    assert Number(s, 1, 2) == 1;
    assert Number(s, 4, 5) == 5;
  }

  /** toString writes the flags before the index: the specifier of
      "%1$-5d" prints as "%-1$5d". */
  lemma IndexedLeftJustifiedPrinted()
    ensures ToString(Specifier(1, LeftJustify, 5, -1, false, 'd')) == "%-1$5d"
  {
    assert LeftJustify.Remove(Uppercase).ToString() == "-";
    assert Decimal.IntToString(1) == "1";
    assert Decimal.IntToString(5) == "5";
  }

  /** "%-1$5d" does not parse: its '%' starts no specifier. */
  lemma FlagsBeforeIndexRejected()
    ensures ParseFormat("%-1$5d") == Failure(UnknownFormatConversion("-"))
  {
    var s := "%-1$5d";
    assert DigitsEnd(s, 1) == 1;
    assert IndexAt(s, 0) == None;
    assert FlagsEnd(s, 2) == 2;
    assert FlagsEnd(s, 1) == 2;
    assert DigitsEnd(s, 3) == 3;
    assert DigitsEnd(s, 2) == 3;
    assert WidthAt(s, 2) == Some(Span(2, 3));
    assert PrecisionAt(s, 3) == None;
    assert MatchAt(s, 0).None?;
    StrayPercent(s, 0, 0);
  }

  /** "%Ta" keeps its conversion 'a' with the Uppercase flag, and prints as
      "%TA", another conversion. */
  lemma DateTimeUpperCase()
    ensures ParseFormat("%Ta") == Success([Spec(Specifier(0, Uppercase, -1, -1, true, 'a'), 0, 3)])
    ensures ToString(Specifier(0, Uppercase, -1, -1, true, 'a')) == "%TA"
  {
    DateTimeUpperCaseParsed();
    DateTimeUpperCasePrinted();
  }

  lemma DateTimeUpperCaseParsed()
    ensures ParseFormat("%Ta") == Success([Spec(Specifier(0, Uppercase, -1, -1, true, 'a'), 0, 3)])
  {
    var s := "%Ta";
    var m := RawMatch(0, 3, None, Span(1, 1), None, None, Some(1), 2);
    DateTimeUpperCaseMatch(s, m);
    hide *;
    ParseSingle(s, m);
  }

  lemma DateTimeUpperCaseMatch(s: string, m: RawMatch)
    requires s == "%Ta" && m == RawMatch(0, 3, None, Span(1, 1), None, None, Some(1), 2)
    ensures MatchAt(s, 0) == Some(m) && m.end == |s|
    ensures Decode(s, m) == Success(Specifier(0, Uppercase, -1, -1, true, 'a'))
  {
    assert DigitsEnd(s, 1) == 1;
    assert FlagsEnd(s, 1) == 1;
    assert IndexAt(s, 0) == None;
    assert WidthAt(s, 1) == None;
    assert PrecisionAt(s, 1) == None;
    assert MatchAt(s, 0) == Some(m);
    assert Parsed(s, 1, 1) == Success(NoFlags);
    assert NoFlags.Add(Uppercase) == Uppercase;
  }

  lemma DateTimeUpperCasePrinted()
    ensures ToString(Specifier(0, Uppercase, -1, -1, true, 'a')) == "%TA"
  {
    assert Uppercase.Remove(Uppercase).ToString() == "";
  }

  /** A string that is two specifiers back to back. */
  lemma ParsePair(s: string, m1: RawMatch, m2: RawMatch)
    requires MatchAt(s, 0) == Some(m1) && m1.end < |s| && MatchAt(s, m1.end) == Some(m2) && m2.end == |s|
    requires Decode(s, m1).Success? && Decode(s, m2).Success?
    ensures ParseFormat(s) == Success([Spec(Decode(s, m1).value, 0, m1.end), Spec(Decode(s, m2).value, m1.end, |s|)])
  {
    assert Find(s, 0) == Some(m1);
    assert Find(s, m1.end) == Some(m2);
    ParseFromFound(s, 0, m1, []);
    ParseFromFound(s, m1.end, m2, []);
    assert Formatter.ParseFrom(s, |s|) == Success([]);
    var a, b := Spec(Decode(s, m1).value, 0, m1.end), Spec(Decode(s, m2).value, m1.end, |s|);
    assert [] + [] + [b] + [] == [b];
    assert [] + [] + [a] + [b] == [a, b];
  }

  /** '%' and a conversion letter other than t/T, with nothing between:
      no index, flags, width or precision. */
  lemma PlainMatch(s: string, p: nat)
    requires p + 1 < |s| && s[p] == '%' && IsConversionChar(s[p + 1]) && !IsDateTimePrefix(s[p + 1]) && s[p + 1] != '%'
    ensures MatchAt(s, p) == Some(RawMatch(p, p + 2, None, Span(p + 1, p + 1), None, None, None, p + 1))
    ensures Decode(s, RawMatch(p, p + 2, None, Span(p + 1, p + 1), None, None, None, p + 1)) ==
      Convert(0, NoFlags, -1, -1, false, s[p + 1])
  {
    assert DigitsEnd(s, p + 1) == p + 1;
    assert FlagsEnd(s, p + 1) == p + 1;
    assert IndexAt(s, p) == None;
    assert WidthAt(s, p + 1) == None;
    assert PrecisionAt(s, p + 1) == None;
    assert Parsed(s, p + 1, p + 1) == Success(NoFlags);
  }

  lemma PlainString()
    ensures Convert(0, NoFlags, -1, -1, false, 's') == Success(Specifier(0, NoFlags, -1, -1, false, 's'))
  {
  }

  lemma PlainDecimal()
    ensures Convert(0, NoFlags, -1, -1, false, 'd') == Success(Specifier(0, NoFlags, -1, -1, false, 'd'))
  {
  }

  lemma StringThenDecimal()
    ensures ParseFormat("%s%d") == Success([Spec(Specifier(0, NoFlags, -1, -1, false, 's'), 0, 2), Spec(Specifier(0, NoFlags, -1, -1, false, 'd'), 2, 4)])
  {
    var s := "%s%d";
    PlainMatch(s, 0);
    PlainMatch(s, 2);
    PlainString();
    PlainDecimal();
    ParsePair(s, RawMatch(0, 2, None, Span(1, 1), None, None, None, 1), RawMatch(2, 4, None, Span(3, 3), None, None, None, 3));
  }

  lemma DecimalThenString()
    ensures ParseFormat("%d%s") == Success([Spec(Specifier(0, NoFlags, -1, -1, false, 'd'), 0, 2), Spec(Specifier(0, NoFlags, -1, -1, false, 's'), 2, 4)])
  {
    var s := "%d%s";
    PlainMatch(s, 0);
    PlainMatch(s, 2);
    PlainString();
    PlainDecimal();
    ParsePair(s, RawMatch(0, 2, None, Span(1, 1), None, None, None, 1), RawMatch(2, 4, None, Span(3, 3), None, None, None, 3));
  }

  lemma SpecsOfTwo(x: Specifier, y: Specifier, i: nat, j: nat, k: nat)
    ensures PoValidator.SpecsOf([Spec(x, i, j), Spec(y, j, k)]) == [x, y]
  {
    var segs := [Spec(x, i, j), Spec(y, j, k)];
    assert segs[1..] == [Spec(y, j, k)];
    assert segs[1..][1..] == [];
    assert PoValidator.SpecsOf(segs[1..]) == [y] + PoValidator.SpecsOf([]);
    assert PoValidator.SpecsOf(segs) == [x] + PoValidator.SpecsOf(segs[1..]);
  }

  lemma SpecifiersOfStringThenDecimal()
    ensures PoValidator.FormatSpecifiers("%s%d") == Success([Specifier(0, NoFlags, -1, -1, false, 's'), Specifier(0, NoFlags, -1, -1, false, 'd')])
  {
    StringThenDecimal();
    SpecsOfTwo(Specifier(0, NoFlags, -1, -1, false, 's'), Specifier(0, NoFlags, -1, -1, false, 'd'), 0, 2, 4);
  }

  lemma SpecifiersOfDecimalThenString()
    ensures PoValidator.FormatSpecifiers("%d%s") == Success([Specifier(0, NoFlags, -1, -1, false, 'd'), Specifier(0, NoFlags, -1, -1, false, 's')])
  {
    DecimalThenString();
    SpecsOfTwo(Specifier(0, NoFlags, -1, -1, false, 'd'), Specifier(0, NoFlags, -1, -1, false, 's'), 0, 2, 4);
  }

  /** A translation may reorder the specifiers: "%s%d" and "%d%s" match. */
  lemma ReorderedSpecifiers()
    ensures PoValidator.FormatsMatch("%s%d", "%d%s") == Pass
  {
    hide PoValidator.FormatSpecifiers, ParseFormat, PoValidator.DecodedIn, Legal;
    var S: Specifier := Specifier(0, NoFlags, -1, -1, false, 's');
    var D: Specifier := Specifier(0, NoFlags, -1, -1, false, 'd');
    SpecifiersOfStringThenDecimal();
    SpecifiersOfDecimalThenString();
    assert multiset([S, D]) == multiset([D, S]);
  }

  lemma StringTwice()
    ensures ParseFormat("%s%s") == Success([Spec(Specifier(0, NoFlags, -1, -1, false, 's'), 0, 2), Spec(Specifier(0, NoFlags, -1, -1, false, 's'), 2, 4)])
  {
    var s := "%s%s";
    PlainMatch(s, 0);
    PlainMatch(s, 2);
    PlainString();
    ParsePair(s, RawMatch(0, 2, None, Span(1, 1), None, None, None, 1), RawMatch(2, 4, None, Span(3, 3), None, None, None, 3));
  }

  lemma SpecifiersOfString()
    ensures PoValidator.FormatSpecifiers("%s") == Success([Specifier(0, NoFlags, -1, -1, false, 's')])
  {
    var S: Specifier := Specifier(0, NoFlags, -1, -1, false, 's');
    var segs := [Spec(S, 0, 2)];
    PercentS();
    assert PoValidator.SpecsOf(segs) == [S] by {
      assert segs[1..] == [];
      assert PoValidator.SpecsOf(segs) == [S] + PoValidator.SpecsOf([]);
    }
    hide *;
    PoValidator.FormatSpecifiersComplete("%s", 0);
    assert segs[..0] == [] && segs[1..] == [];
  }

  lemma SpecifiersOfStringTwice()
    ensures PoValidator.FormatSpecifiers("%s%s") == Success([Specifier(0, NoFlags, -1, -1, false, 's'), Specifier(0, NoFlags, -1, -1, false, 's')])
  {
    StringTwice();
    SpecsOfTwo(Specifier(0, NoFlags, -1, -1, false, 's'), Specifier(0, NoFlags, -1, -1, false, 's'), 0, 2, 4);
  }

  /** Multiplicity counts: a translation that repeats "%s" does not match. */
  lemma OnceIsNotTwice()
    ensures PoValidator.FormatsMatch("%s", "%s%s") == Fail(PoValidator.FormatListsMismatch)
  {
    hide PoValidator.FormatSpecifiers, ParseFormat, PoValidator.DecodedIn, Legal;
    var S: Specifier := Specifier(0, NoFlags, -1, -1, false, 's');
    SpecifiersOfString();
    SpecifiersOfStringTwice();
    assert multiset([S])[S] == 1 && multiset([S, S])[S] == 2;
  }
}
