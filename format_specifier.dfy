/** Formatter.FormatSpecifier: the fields one specifier decodes to, the
    constructor that fills them from a pattern match, the check* legality
    rules, equals and toString. */
module FormatSpecifier {
  import opened Wrappers
  import opened FormatErrors
  import opened FormatFlags
  import opened FormatPattern
  import Decimal
  import Conversion
  import DateTime

  /** The fields of a FormatSpecifier. index is N for "N$", 0 without an
      index, -1 with the '<' flag and -2 for '%' and 'n'; width and precision
      are -1 when absent; c is lower-cased outside date/time, the case being
      kept as the Uppercase flag. */
  datatype Specifier = Specifier(index: int, f: Flags, width: int, precision: int, dt: bool, c: char)

  // ---------------------------------------------------------------------
  // equals and toString

  /** FormatSpecifier.equals: all six fields, the flags compared by value.
      It is the model's value equality, so a multiset of specifiers counts
      them as LinkedHashMultiset does. */
  predicate Equals(a: Specifier, b: Specifier)
    ensures Equals(a, b) <==> a == b
  {
    a.index == b.index && a.width == b.width && a.precision == b.precision &&
    a.dt == b.dt && a.c == b.c && a.f.value == b.f.value
  }

  /** FormatSpecifier.toString: '%', the flags without Uppercase, then the
      index (only when positive), width, precision, t/T and the conversion,
      upper-cased when Uppercase is set. The text starts with '%' and ends
      with the conversion character, after 't' or 'T' for a date/time. */
  function ToString(sp: Specifier): (r: string)
    ensures |r| >= 2 && r[0] == '%'
    ensures r[|r| - 1] == if sp.f.Contains(Uppercase) then Conversion.ToUpperCase(sp.c) else sp.c
    ensures sp.dt ==> r[|r| - 2] == if sp.f.Contains(Uppercase) then 'T' else 't'
  {
    "%" + sp.f.Remove(Uppercase).ToString()
    + (if sp.index > 0 then Decimal.IntToString(sp.index) + "$" else "")
    + (if sp.width != -1 then Decimal.IntToString(sp.width) else "")
    + (if sp.precision != -1 then "." + Decimal.IntToString(sp.precision) else "")
    + (if sp.dt then (if sp.f.Contains(Uppercase) then "T" else "t") else "")
    + [if sp.f.Contains(Uppercase) then Conversion.ToUpperCase(sp.c) else sp.c]
  }

  // ---------------------------------------------------------------------
  // The legality checks, each the first exception its Java method throws

  function Mismatch(flag: Flags, c: char): FormatError {
    FormatFlagsConversionMismatch(flag.ToString(), c)
  }

  /** checkBadFlags: the first listed flag that is set. */
  function CheckBadFlags(sp: Specifier, bad: seq<Flags>): (r: Option<FormatError>)
    ensures r.None? <==> forall k :: 0 <= k < |bad| ==> !sp.f.Contains(bad[k])
    ensures r.Some? ==> exists k :: 0 <= k < |bad| && sp.f.Contains(bad[k]) && r == Some(Mismatch(bad[k], sp.c))
  {
    if bad == [] then None
    else if sp.f.Contains(bad[0]) then Some(Mismatch(bad[0], sp.c))
    else
      var r := CheckBadFlags(sp, bad[1..]);
      assert forall k :: 1 <= k < |bad| ==> bad[k] == bad[1..][k - 1];
      r
  }

  /** '-' without a width, the rule every category but 'n' shares. */
  function CheckLeftWidth(sp: Specifier): (r: Option<FormatError>)
    ensures r.None? <==> (Has(sp, LeftJustify) ==> sp.width != -1)
    ensures r.Some? ==> r.value.MissingFormatWidth?
  {
    if sp.width == -1 && sp.f.Contains(LeftJustify) then Some(MissingFormatWidth(ToString(sp))) else None
  }

  function OrElse(first: Option<FormatError>, second: Option<FormatError>): Option<FormatError> {
    if first.Some? then first else second
  }

  /** checkGeneral: b, h and s. It accepts exactly what the legality
      table allows for them, and throws only a flag mismatch or a missing
      width. */
  function CheckGeneral(sp: Specifier): (r: Option<FormatError>)
    ensures CategoryOf(sp) == General ==> (r.None? <==> Legal(sp))
    ensures r.Some? ==> r.value.FormatFlagsConversionMismatch? || r.value.MissingFormatWidth?
  {
    GeneralLegal(sp);
    if (sp.c == 'b' || sp.c == 'h') && sp.f.Contains(Alternate) then Some(Mismatch(Alternate, sp.c))
    else OrElse(CheckLeftWidth(sp), CheckBadFlags(sp, [Plus, LeadingSpace, ZeroPad, Group, Parentheses]))
  }

  /** The legality table for b, h and s, rule by rule. */
  lemma GeneralLegal(sp: Specifier)
    ensures var rest := [Plus, LeadingSpace, ZeroPad, Group, Parentheses];
      CategoryOf(sp) == General ==>
        (Legal(sp) <==>
          && (sp.c == 's' || !Has(sp, Alternate))
          && (forall k :: 0 <= k < |rest| ==> !sp.f.Contains(rest[k]))
          && (Has(sp, LeftJustify) ==> sp.width != -1))
  {
    var rest := [Plus, LeadingSpace, ZeroPad, Group, Parentheses];
    if CategoryOf(sp) == General {
      if sp.c == 's' {
        assert ForbiddenFlags(sp) == rest;
      } else {
        assert ForbiddenFlags(sp) == [Alternate] + rest;
        NoneOfCons(sp.f, Alternate, rest);
      }
    }
  }

  /** checkDateTime: t and T, with the suffix c. It accepts exactly what
      the legality table allows for a date/time, and a precision is
      rejected before anything else. */
  function CheckDateTime(sp: Specifier): (r: Option<FormatError>)
    ensures CategoryOf(sp) == DateTimeCategory ==> (r.None? <==> Legal(sp))
    ensures sp.precision != -1 ==> r == Some(IllegalFormatPrecision(sp.precision))
  {
    assert CategoryOf(sp) == DateTimeCategory ==>
      ForbiddenFlags(sp) == [Alternate, Plus, LeadingSpace, ZeroPad, Group, Parentheses];
    if sp.precision != -1 then Some(IllegalFormatPrecision(sp.precision))
    else if !DateTime.IsValid(sp.c) then Some(UnknownFormatConversion("t" + [sp.c]))
    else OrElse(CheckBadFlags(sp, [Alternate, Plus, LeadingSpace, ZeroPad, Group, Parentheses]), CheckLeftWidth(sp))
  }

  /** checkCharacter: c. It accepts exactly what the legality table allows
      for a character, and a precision is rejected before anything else. */
  function CheckCharacter(sp: Specifier): (r: Option<FormatError>)
    ensures CategoryOf(sp) == Character ==> (r.None? <==> Legal(sp))
    ensures sp.precision != -1 ==> r == Some(IllegalFormatPrecision(sp.precision))
  {
    assert CategoryOf(sp) == Character ==>
      ForbiddenFlags(sp) == [Alternate, Plus, LeadingSpace, ZeroPad, Group, Parentheses];
    if sp.precision != -1 then Some(IllegalFormatPrecision(sp.precision))
    else OrElse(CheckBadFlags(sp, [Alternate, Plus, LeadingSpace, ZeroPad, Group, Parentheses]), CheckLeftWidth(sp))
  }

  /** checkNumeric: shared by integers and floats. It passes exactly when
      width and precision are absent or not negative, '-' and '0' have a
      width, and neither '+' with ' ' nor '-' with '0' is given. */
  function CheckNumeric(sp: Specifier): (r: Option<FormatError>)
    ensures r.None? <==>
      && sp.width >= -1 && sp.precision >= -1
      && (sp.width == -1 ==> !Has(sp, LeftJustify) && !Has(sp, ZeroPad))
      && !(Has(sp, Plus) && Has(sp, LeadingSpace)) && !(Has(sp, LeftJustify) && Has(sp, ZeroPad))
  {
    if sp.width != -1 && sp.width < 0 then Some(IllegalFormatWidth(sp.width))
    else if sp.precision != -1 && sp.precision < 0 then Some(IllegalFormatPrecision(sp.precision))
    else if sp.width == -1 && (sp.f.Contains(LeftJustify) || sp.f.Contains(ZeroPad)) then
      Some(MissingFormatWidth(ToString(sp)))
    else if (sp.f.Contains(Plus) && sp.f.Contains(LeadingSpace)) || (sp.f.Contains(LeftJustify) && sp.f.Contains(ZeroPad)) then
      Some(IllegalFormatFlags(sp.f.ToString()))
    else None
  }

  /** checkInteger: d, o and x. It accepts exactly what the legality table
      allows for an integer; the numeric checks come before the precision. */
  function CheckInteger(sp: Specifier): (r: Option<FormatError>)
    ensures CategoryOf(sp) == Integer ==> (r.None? <==> Legal(sp))
    ensures CheckNumeric(sp).Some? ==> r == CheckNumeric(sp)
  {
    assert CategoryOf(sp) == Integer ==> ForbiddenFlags(sp) == if sp.c == 'd' then [Alternate] else [Group];
    OrElse(CheckNumeric(sp),
      if sp.precision != -1 then Some(IllegalFormatPrecision(sp.precision))
      else if sp.c == 'd' then CheckBadFlags(sp, [Alternate])
      else if sp.c == 'o' then CheckBadFlags(sp, [Group])
      else CheckBadFlags(sp, [Group]))
  }

  /** checkFloat: f, a, e and g. It accepts exactly what the legality table
      allows for a floating-point conversion; the numeric checks come first. */
  function CheckFloat(sp: Specifier): (r: Option<FormatError>)
    ensures CategoryOf(sp) == FloatingPoint ==> (r.None? <==> Legal(sp))
    ensures CheckNumeric(sp).Some? ==> r == CheckNumeric(sp)
  {
    var forbidden := if sp.c == 'a' then [Parentheses, Group] else if sp.c == 'e' then [Group]
      else if sp.c == 'g' then [Alternate] else [];
    assert CategoryOf(sp) == FloatingPoint ==> ForbiddenFlags(sp) == forbidden;
    OrElse(CheckNumeric(sp),
      if sp.c == 'f' then None
      else if sp.c == 'a' then CheckBadFlags(sp, [Parentheses, Group])
      else if sp.c == 'e' then CheckBadFlags(sp, [Group])
      else if sp.c == 'g' then CheckBadFlags(sp, [Alternate])
      else None)
  }

  /** checkText: '%' and 'n'. Any other c reaches Java's `assert false`,
      which is disabled in production and so throws nothing. '%' and 'n'
      pass exactly as the legality table allows. */
  function CheckText(sp: Specifier): (r: Option<FormatError>)
    ensures CategoryOf(sp) in {Percent, LineSeparator} ==> (r.None? <==> Legal(sp))
    ensures sp.precision != -1 ==> r == Some(IllegalFormatPrecision(sp.precision))
  {
    if sp.precision != -1 then Some(IllegalFormatPrecision(sp.precision))
    else if sp.c == '%' then
      if sp.f != LeftJustify && sp.f != NoFlags then Some(IllegalFormatFlags(sp.f.ToString()))
      else CheckLeftWidth(sp)
    else if sp.c == 'n' then
      if sp.width != -1 then Some(IllegalFormatWidth(sp.width))
      else if sp.f != NoFlags then Some(IllegalFormatFlags(sp.f.ToString()))
      else None
    else None
  }

  /** The dispatch at the end of the constructor: date/time first, then the
      category of the (lower-cased) conversion. On a folded specifier the
      checks reject exactly what the legality table does. */
  function Validate(sp: Specifier): (r: Option<FormatError>)
    ensures Folded(sp) ==> (r.None? <==> Legal(sp))
  {
    if sp.dt then CheckDateTime(sp)
    else if Conversion.IsGeneral(sp.c) then CheckGeneral(sp)
    else if Conversion.IsCharacter(sp.c) then CheckCharacter(sp)
    else if Conversion.IsInteger(sp.c) then CheckInteger(sp)
    else if Conversion.IsFloat(sp.c) then CheckFloat(sp)
    else if Conversion.IsText(sp.c) then CheckText(sp)
    else Some(UnknownFormatConversion([sp.c]))
  }

  // ---------------------------------------------------------------------
  // The legality matrix, as a table

  datatype Category = General | Character | Integer | FloatingPoint | DateTimeCategory | Percent | LineSeparator | Unknown

  function CategoryOf(sp: Specifier): Category {
    if sp.dt then DateTimeCategory
    else if sp.c in "bhs" then General
    else if sp.c == 'c' then Character
    else if sp.c in "dox" then Integer
    else if sp.c in "faeg" then FloatingPoint
    else if sp.c == '%' then Percent
    else if sp.c == 'n' then LineSeparator
    else Unknown
  }

  /** The flags a specifier may not carry, by category and conversion. */
  function ForbiddenFlags(sp: Specifier): seq<Flags> {
    match CategoryOf(sp)
    case General => (if sp.c == 's' then [] else [Alternate]) + [Plus, LeadingSpace, ZeroPad, Group, Parentheses]
    case Character => [Alternate, Plus, LeadingSpace, ZeroPad, Group, Parentheses]
    case DateTimeCategory => [Alternate, Plus, LeadingSpace, ZeroPad, Group, Parentheses]
    case Integer => if sp.c == 'd' then [Alternate] else [Group]
    case FloatingPoint =>
      if sp.c == 'a' then [Parentheses, Group] else if sp.c == 'e' then [Group]
      else if sp.c == 'g' then [Alternate] else []
    case _ => []
  }

  predicate Has(sp: Specifier, flag: Flags) { sp.f.Contains(flag) }

  /** A specifier the constructor accepts: the legality matrix of the check*
      methods, written as one rule per category. */
  predicate Legal(sp: Specifier) {
    var cat := CategoryOf(sp);
    var numeric := cat == Integer || cat == FloatingPoint;
    && cat != Unknown
    && (forall k :: 0 <= k < |ForbiddenFlags(sp)| ==> !sp.f.Contains(ForbiddenFlags(sp)[k]))
    // a precision is meaningless for characters, integers, dates and text
    && (cat in {Character, Integer, DateTimeCategory, Percent, LineSeparator} ==> sp.precision == -1)
    && (cat == DateTimeCategory ==> DateTime.IsValid(sp.c))
    // '-' needs a width, and so does '0' for numbers
    && (cat != LineSeparator && Has(sp, LeftJustify) ==> sp.width != -1)
    && (numeric ==> sp.width >= -1 && sp.precision >= -1)
    && (numeric && Has(sp, ZeroPad) ==> sp.width != -1)
    && (numeric ==> !(Has(sp, Plus) && Has(sp, LeadingSpace)) && !(Has(sp, LeftJustify) && Has(sp, ZeroPad)))
    // '%' takes no flag but '-'; 'n' takes no flag and no width
    && (cat == Percent ==> sp.f == NoFlags || sp.f == LeftJustify)
    && (cat == LineSeparator ==> sp.f == NoFlags && sp.width == -1)
  }

  lemma NoneOfCons(f: Flags, x: Flags, rest: seq<Flags>)
    ensures (forall k :: 0 <= k < |[x] + rest| ==> !f.Contains(([x] + rest)[k])) <==>
      !f.Contains(x) && forall k :: 0 <= k < |rest| ==> !f.Contains(rest[k])
  {
    var all := [x] + rest;
    if forall k :: 0 <= k < |all| ==> !f.Contains(all[k]) {
      assert all[0] == x;
      forall k | 0 <= k < |rest| ensures !f.Contains(rest[k]) { assert all[k + 1] == rest[k]; }
    }
  }

  /** What the constructor hands to the checks: outside date/time the
      conversion has been lower-cased. */
  predicate Folded(sp: Specifier) {
    sp.dt || !Conversion.IsUpperCase(sp.c)
  }

  // ---------------------------------------------------------------------
  // What each check* raises

  /** Integers and floats: '-' or '0' without a width is MissingFormatWidth;
      with a width, '+' with ' ' or '-' with '0' is IllegalFormatFlags. */
  lemma NumericFlagErrors(sp: Specifier)
    requires CategoryOf(sp) in {Integer, FloatingPoint}
    requires sp.width >= -1 && sp.precision >= -1
    ensures sp.width == -1 && (Has(sp, LeftJustify) || Has(sp, ZeroPad)) ==>
      Validate(sp) == Some(MissingFormatWidth(ToString(sp)))
    ensures sp.width != -1 && ((Has(sp, Plus) && Has(sp, LeadingSpace)) || (Has(sp, LeftJustify) && Has(sp, ZeroPad))) ==>
      Validate(sp) == Some(IllegalFormatFlags(sp.f.ToString()))
  {
  }

  /** Integers reject a precision, once the numeric checks pass. */
  lemma IntegerPrecision(sp: Specifier)
    requires CategoryOf(sp) == Integer && CheckNumeric(sp).None? && sp.precision != -1
    ensures Validate(sp) == Some(IllegalFormatPrecision(sp.precision))
  {
  }

  /** 'c', date/time and '%' reject a precision before anything else. */
  lemma PrecisionRejected(sp: Specifier)
    requires CategoryOf(sp) in {Character, DateTimeCategory, Percent, LineSeparator} && sp.precision != -1
    ensures Validate(sp) == Some(IllegalFormatPrecision(sp.precision))
  {
  }

  /** 'b' and 'h' reject '#', 's' accepts it. */
  lemma GeneralAlternate(sp: Specifier)
    requires Folded(sp) && CategoryOf(sp) == General && Has(sp, Alternate)
    ensures sp.c != 's' ==> Validate(sp) == Some(FormatFlagsConversionMismatch("#", sp.c))
    ensures sp.c == 's' ==> Validate(sp).None? == Legal(sp)
  {
    assert Alternate.ToString() == "#";
  }

  /** 'n' rejects a width before it looks at the flags. */
  lemma LineSeparatorWidth(sp: Specifier)
    requires CategoryOf(sp) == LineSeparator && sp.precision == -1 && sp.width != -1
    ensures Validate(sp) == Some(IllegalFormatWidth(sp.width))
  {
  }

  // ---------------------------------------------------------------------
  // The constructor

  /** Integer.parseInt of the digits s[a..b]. */
  function Number(s: string, a: nat, b: nat): nat
    requires a <= b <= |s| && DigitsIn(s, a, b)
  {
    assert Decimal.AllDigits(s[a..b]) by {
      forall k | 0 <= k < b - a ensures Decimal.IsDigit(s[a..b][k]) { assert s[a..b][k] == s[a + k]; }
    }
    Decimal.ParseNat(s[a..b])
  }

  /** The flags span of a match holds flag characters only. */
  lemma MatchFlagChars(s: string, m: RawMatch)
    requires IsMatch(s, m)
    ensures forall k :: m.flags.start <= k < m.flags.end ==> FlagOf(s[k]).Some?
  {
    forall k | m.flags.start <= k < m.flags.end ensures FlagOf(s[k]).Some? {
      assert IsFlagChar(s[k]);
    }
  }

  /** The FormatSpecifier a match decodes to, or the exception its
      constructor throws: the fields are set in the constructor's order,
      index first and overwritten by '<' and by the text conversions. */
  function Decode(s: string, m: RawMatch): Result<Specifier, FormatError>
    requires IsMatch(s, m)
  {
    var f :- FormatFlags.Parsed(s, m.flags.start, m.flags.end);
    var index := if f.Contains(Previous) then -1
      else if m.index.Some? then Number(s, m.index.value.start, m.index.value.end - 1) as int else 0;
    var width := if m.width.Some? then Number(s, m.width.value.start, m.width.value.end) as int else -1;
    var precision := if m.precision.Some? then Number(s, m.precision.value.start + 1, m.precision.value.end) as int else -1;
    var dt := m.tT.Some?;
    var f := if dt && s[m.tT.value] == 'T' then f.Add(Uppercase) else f;
    Convert(index, f, width, precision, dt, s[m.conversion])
  }

  /** The last steps of the constructor: conversion(c), which folds an
      upper-case conversion into the Uppercase flag, and the checks. */
  function Convert(index: int, f: Flags, width: int, precision: int, dt: bool, conv: char): Result<Specifier, FormatError> {
    if !dt && !Conversion.IsValid(conv) then Failure(UnknownFormatConversion([conv]))
    else
      var upper := !dt && Conversion.IsUpperCase(conv);
      var f := if upper then f.Add(Uppercase) else f;
      var c := if upper then Conversion.ToLowerCase(conv) else conv;
      var index := if !dt && Conversion.IsText(c) then -2 else index;
      var sp := Specifier(index, f, width, precision, dt, c);
      if Validate(sp).Some? then Failure(Validate(sp).value) else Success(sp)
  }

  /** new FormatSpecifier(s, m): the constructor, assigning its fields in
      turn; a thrown exception is the Failure result. */
  method NewFormatSpecifier(s: string, m: RawMatch) returns (r: Result<Specifier, FormatError>)
    requires IsMatch(s, m)
    ensures r == Decode(s, m)
  {
    hide Convert;
    var index: int := -1;
    var f := NoFlags;
    var width: int;
    var precision: int;
    var dt := false;
    var c: char;
    // index(s, m.start(1), m.end(1)): the trailing '$' is skipped
    if m.index.Some? {
      index := Number(s, m.index.value.start, m.index.value.end - 1);
    } else {
      index := 0;
    }
    // flags(s, m.start(2), m.end(2))
    var parsed := FormatFlags.Parse(s, m.flags.start, m.flags.end);
    if parsed.Failure? {
      return Failure(parsed.error);
    }
    f := parsed.value;
    if f.Contains(Previous) {
      index := -1;
    }
    // width(s, m.start(3), m.end(3)): digits only, so never negative
    width := -1;
    if m.width.Some? {
      width := Number(s, m.width.value.start, m.width.value.end);
    }
    // precision(s, m.start(4), m.end(4)): the leading '.' is skipped
    precision := -1;
    if m.precision.Some? {
      precision := Number(s, m.precision.value.start + 1, m.precision.value.end);
    }
    if m.tT.Some? {
      dt := true;
      if s[m.tT.value] == 'T' {
        f := f.Add(Uppercase);
      }
    }
    assert Decode(s, m) == Convert(index, f, width, precision, dt, s[m.conversion]);
    r := ConvertAndCheck(index, f, width, precision, dt, s[m.conversion]);
  }

  /** The tail of the constructor: conversion(s.charAt(m.start(6))), which
      writes c and may overwrite f and index, then the check* dispatch. */
  method ConvertAndCheck(index: int, f: Flags, width: int, precision: int, dt: bool, conv: char)
    returns (r: Result<Specifier, FormatError>)
    ensures r == Convert(index, f, width, precision, dt, conv)
  {
    var index, f := index, f;
    var c := conv;
    if !dt {
      if !Conversion.IsValid(c) {
        return Failure(UnknownFormatConversion([c]));
      }
      if Conversion.IsUpperCase(c) {
        f := f.Add(Uppercase);
        c := Conversion.ToLowerCase(c);
      }
      if Conversion.IsText(c) {
        index := -2;
      }
    }
    var sp := Specifier(index, f, width, precision, dt, c);
    var err := Validate(sp);
    if err.Some? {
      return Failure(err.value);
    }
    return Success(sp);
  }

  // ---------------------------------------------------------------------
  // What a match decodes to, in terms of the characters matched

  /** The flag characters of the match, none repeated. */
  predicate DistinctFlagChars(s: string, m: RawMatch)
    requires m.flags.start <= m.flags.end <= |s|
  {
    forall k, l :: m.flags.start <= k < l < m.flags.end ==> s[k] != s[l]
  }

  predicate FlagWritten(s: string, m: RawMatch, f: Flags)
    requires m.flags.start <= m.flags.end <= |s|
  {
    exists k :: m.flags.start <= k < m.flags.end && FlagOf(s[k]) == Some(f)
  }

  /** The flags a match parses to, with the fact that parsing fails only
      on a repeated flag character. */
  lemma MatchFlags(s: string, m: RawMatch)
    requires IsMatch(s, m)
    ensures FormatFlags.Parsed(s, m.flags.start, m.flags.end).Success? <==> DistinctFlagChars(s, m)
    ensures FormatFlags.Parsed(s, m.flags.start, m.flags.end).Failure? ==>
      FormatFlags.Parsed(s, m.flags.start, m.flags.end).error.DuplicateFormatFlags?
    ensures FormatFlags.Parsed(s, m.flags.start, m.flags.end).Success? ==>
      forall f :: f in AllFlags ==>
        (FormatFlags.Parsed(s, m.flags.start, m.flags.end).value.Contains(f) <==> FlagWritten(s, m, f))
  {
    MatchFlagChars(s, m);
    ParsedFlags(s, m.flags.start, m.flags.end);
  }

  /** A repeated flag character is DuplicateFormatFlagsException, before
      anything else is looked at. */
  lemma DecodeDuplicateFlags(s: string, m: RawMatch)
    requires IsMatch(s, m) && !DistinctFlagChars(s, m)
    ensures Decode(s, m).Failure? && Decode(s, m).error.DuplicateFormatFlags?
  {
    MatchFlags(s, m);
  }

  /** A decoded specifier carries exactly the flags written, each once, and
      Uppercase exactly when the prefix is 'T' or, outside date/time, the
      conversion is an upper-case letter. */
  lemma DecodeFlags(s: string, m: RawMatch)
    requires IsMatch(s, m) && Decode(s, m).Success?
    ensures DistinctFlagChars(s, m)
    ensures forall f :: f in UserFlags ==> (Decode(s, m).value.f.Contains(f) <==> FlagWritten(s, m, f))
    ensures Decode(s, m).value.f.Contains(Uppercase) <==>
      if m.tT.Some? then s[m.tT.value] == 'T' else Conversion.IsUpperCase(s[m.conversion])
  {
    MatchFlags(s, m);
    var f0 := FormatFlags.Parsed(s, m.flags.start, m.flags.end).value;
    assert !FlagWritten(s, m, Uppercase) by {
      forall k | m.flags.start <= k < m.flags.end ensures FlagOf(s[k]) != Some(Uppercase) {
        MatchFlagChars(s, m);
        FlagCharsDistinct(s[k], s[k]);
      }
    }
    forall f | f in AllFlags
      ensures f0.Add(Uppercase).Contains(f) <==> f0.Contains(f) || f == Uppercase
    {
      AddContains(f0, Uppercase, f);
    }
  }

  /** The index of a decoded specifier: -2 for '%' and 'n', otherwise -1
      when '<' is written, otherwise N for "N$" and 0 without an index. */
  lemma DecodeIndex(s: string, m: RawMatch)
    requires IsMatch(s, m) && Decode(s, m).Success?
    ensures Decode(s, m).value.index ==
      if m.tT.None? && s[m.conversion] in "%n" then -2
      else if FlagWritten(s, m, Previous) then -1
      else if m.index.Some? then Number(s, m.index.value.start, m.index.value.end - 1) as int
      else 0
  {
    DecodeIndexParsed(s, m);
    hide Decode;
    MatchFlags(s, m);
    assert Previous in AllFlags;
  }

  /** DecodeIndex, with the flags as parsed rather than as written. */
  lemma DecodeIndexParsed(s: string, m: RawMatch)
    requires IsMatch(s, m) && Decode(s, m).Success?
    ensures FormatFlags.Parsed(s, m.flags.start, m.flags.end).Success?
    ensures Decode(s, m).value.index ==
      if m.tT.None? && s[m.conversion] in "%n" then -2
      else if FormatFlags.Parsed(s, m.flags.start, m.flags.end).value.Contains(Previous) then -1
      else if m.index.Some? then Number(s, m.index.value.start, m.index.value.end - 1) as int
      else 0
  {
    hide Convert;
    var f0 := FormatFlags.Parsed(s, m.flags.start, m.flags.end).value;
    var index := if f0.Contains(Previous) then -1
      else if m.index.Some? then Number(s, m.index.value.start, m.index.value.end - 1) as int else 0;
    var width := if m.width.Some? then Number(s, m.width.value.start, m.width.value.end) as int else -1;
    var precision := if m.precision.Some? then Number(s, m.precision.value.start + 1, m.precision.value.end) as int else -1;
    var f := if m.tT.Some? && s[m.tT.value] == 'T' then f0.Add(Uppercase) else f0;
    assert Decode(s, m) == Convert(index, f, width, precision, m.tT.Some?, s[m.conversion]);
    ConvertIndex(index, f, width, precision, m.tT.Some?, s[m.conversion]);
  }

  /** conversion() replaces the index by -2 for '%' and 'n' only. */
  lemma ConvertIndex(index: int, f: Flags, width: int, precision: int, dt: bool, conv: char)
    requires Convert(index, f, width, precision, dt, conv).Success?
    ensures Convert(index, f, width, precision, dt, conv).value.index == if !dt && conv in "%n" then -2 else index
  {
    hide Validate;
  }

  /** The conversion of a decoded specifier: with a t/T prefix the suffix as
      written, which the DateTime table accepts; otherwise the letter,
      lower-cased. */
  lemma DecodeConversion(s: string, m: RawMatch)
    requires IsMatch(s, m) && Decode(s, m).Success?
    ensures Decode(s, m).value.dt == m.tT.Some?
    ensures m.tT.Some? ==> Decode(s, m).value.c == s[m.conversion] && DateTime.IsValid(s[m.conversion])
    ensures m.tT.None? ==>
      Conversion.IsValid(s[m.conversion]) && Decode(s, m).value.c == Conversion.ToLowerCase(s[m.conversion])
    ensures Folded(Decode(s, m).value)
  {
  }

  /** Outside date/time a letter missing from the Conversion tables is
      UnknownFormatConversionException carrying that letter; this includes
      a 't' or 'T' the pattern took as the conversion because no letter
      followed it. */
  lemma DecodeUnknownConversion(s: string, m: RawMatch)
    requires IsMatch(s, m) && DistinctFlagChars(s, m) && m.tT.None?
    requires !Conversion.IsValid(s[m.conversion]) || s[m.conversion] == 't'
    ensures Decode(s, m) == Failure(UnknownFormatConversion([s[m.conversion]]))
  {
    MatchFlags(s, m);
  }

  /** With a t/T prefix and no precision, a suffix missing from the DateTime
      table is UnknownFormatConversionException carrying "t" and the suffix. */
  lemma DecodeUnknownDateTime(s: string, m: RawMatch)
    requires IsMatch(s, m) && DistinctFlagChars(s, m) && m.tT.Some? && m.precision.None?
    requires !DateTime.IsValid(s[m.conversion])
    ensures Decode(s, m) == Failure(UnknownFormatConversion("t" + [s[m.conversion]]))
  {
    MatchFlags(s, m);
  }

  /** Whatever the constructor builds passes the legality table. */
  lemma DecodeLegal(s: string, m: RawMatch)
    requires IsMatch(s, m) && Decode(s, m).Success?
    ensures Legal(Decode(s, m).value)
  {
    DecodeConversion(s, m);
  }
}
