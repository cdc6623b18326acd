/** The format-specifier pattern of Formatter,
      %(\d+\$)?([-#+ 0,(\<]*)?(\d+)?(\.\d+)?([tT])?([a-zA-Z%])
    read by a deterministic matcher instead of a backtracking regex engine.
    MatchAt takes every group greedily; the one place where the regex engine
    backtracks to a different match is a t/T that is not followed by a
    conversion character: the t/T itself is then the conversion. MatchAt is
    proved to succeed exactly where the pattern matches (IsMatch). */
module FormatPattern {
  import opened Wrappers
  import Decimal

  /** A group's [Matcher.start(g), Matcher.end(g)). */
  datatype Span = Span(start: nat, end: nat)

  /** One match of the pattern: the whole match, the groups 1 (index with its
      '$'), 2 (flags), 3 (width), 4 (precision with its '.'), 5 (t/T) and the
      position of group 6 (the conversion character). */
  datatype RawMatch = RawMatch(
    start: nat, end: nat,
    index: Option<Span>, flags: Span, width: Option<Span>, precision: Option<Span>,
    tT: Option<nat>, conversion: nat)

  predicate IsDigit(c: char) { Decimal.IsDigit(c) }

  predicate IsFlagChar(c: char) { c in "-#+ 0,(<" }

  predicate IsConversionChar(c: char) { 'a' <= c <= 'z' || 'A' <= c <= 'Z' || c == '%' }

  predicate IsDateTimePrefix(c: char) { c == 't' || c == 'T' }

  predicate DigitsIn(s: string, a: nat, b: nat)
    requires a <= b <= |s|
  {
    forall k :: a <= k < b ==> IsDigit(s[k])
  }

  predicate FlagCharsIn(s: string, a: nat, b: nat)
    requires a <= b <= |s|
  {
    forall k :: a <= k < b ==> IsFlagChar(s[k])
  }

  // ---------------------------------------------------------------------
  // The pattern, declaratively

  /** Where an optional group leaves the scan: its end, or from when absent. */
  function After(g: Option<Span>, from: nat): nat {
    if g.Some? then g.value.end else from
  }

  /** Group 1, (\d+\$)?, starting at from. */
  predicate IndexGroup(s: string, from: nat, g: Option<Span>) {
    g.Some? ==>
      g.value.start == from && from + 1 < g.value.end <= |s| &&
      DigitsIn(s, from, g.value.end - 1) && s[g.value.end - 1] == '$'
  }

  /** Group 3, (\d+)?, starting at from. */
  predicate WidthGroup(s: string, from: nat, g: Option<Span>) {
    g.Some? ==> g.value.start == from && from < g.value.end <= |s| && DigitsIn(s, from, g.value.end)
  }

  /** Group 4, (\.\d+)?, starting at from. */
  predicate PrecisionGroup(s: string, from: nat, g: Option<Span>) {
    g.Some? ==>
      g.value.start == from && from + 1 < g.value.end <= |s| &&
      s[from] == '.' && DigitsIn(s, from + 1, g.value.end)
  }

  /** The position after groups 1 to 3. */
  function WidthEnd(m: RawMatch): nat { After(m.width, m.flags.end) }

  /** The position after groups 1 to 4: where t/T or the conversion stands. */
  function PrecisionEnd(m: RawMatch): nat { After(m.precision, WidthEnd(m)) }

  /** m is a match of the pattern in s, with m's groups as the capture groups. */
  predicate IsMatch(s: string, m: RawMatch) {
    && m.start < |s| && s[m.start] == '%'
    && IndexGroup(s, m.start + 1, m.index)
    && m.flags.start == After(m.index, m.start + 1)
    && m.flags.start <= m.flags.end <= |s| && FlagCharsIn(s, m.flags.start, m.flags.end)
    && WidthGroup(s, m.flags.end, m.width)
    && WidthEnd(m) <= |s|
    && PrecisionGroup(s, WidthEnd(m), m.precision)
    && (if m.tT.Some?
        then m.tT.value == PrecisionEnd(m) && m.tT.value < |s| && IsDateTimePrefix(s[m.tT.value])
             && m.conversion == m.tT.value + 1
        else m.conversion == PrecisionEnd(m))
    && m.conversion < |s| && IsConversionChar(s[m.conversion])
    && m.end == m.conversion + 1
  }

  // ---------------------------------------------------------------------
  // The matcher

  /** The end of the longest run of digits from i. */
  function DigitsEnd(s: string, i: nat): (j: nat)
    requires i <= |s|
    ensures i <= j <= |s| && DigitsIn(s, i, j) && (j < |s| ==> !IsDigit(s[j]))
    decreases |s| - i
  {
    if i < |s| && IsDigit(s[i]) then DigitsEnd(s, i + 1) else i
  }

  /** The end of the longest run of flag characters from i. */
  function FlagsEnd(s: string, i: nat): (j: nat)
    requires i <= |s|
    ensures i <= j <= |s| && FlagCharsIn(s, i, j) && (j < |s| ==> !IsFlagChar(s[j]))
    decreases |s| - i
  {
    if i < |s| && IsFlagChar(s[i]) then FlagsEnd(s, i + 1) else i
  }

  /** Group 1 at p + 1, greedily: the digits after '%' when a '$' ends them. */
  function IndexAt(s: string, p: nat): (g: Option<Span>)
    requires p < |s|
    ensures IndexGroup(s, p + 1, g) && After(g, p + 1) <= |s|
  {
    var d := DigitsEnd(s, p + 1);
    if p + 1 < d < |s| && s[d] == '$' then Some(Span(p + 1, d + 1)) else None
  }

  /** Group 3 at i, greedily: all the digits there, if any. */
  function WidthAt(s: string, i: nat): (g: Option<Span>)
    requires i <= |s|
    ensures WidthGroup(s, i, g) && After(g, i) == DigitsEnd(s, i)
  {
    var e := DigitsEnd(s, i);
    if i < e then Some(Span(i, e)) else None
  }

  /** Group 4 at i, greedily: a '.' and all the digits after it, if there is
      at least one. */
  function PrecisionAt(s: string, i: nat): (g: Option<Span>)
    requires i <= |s|
    ensures PrecisionGroup(s, i, g) && After(g, i) <= |s|
  {
    if i + 1 < |s| && s[i] == '.' && i + 1 < DigitsEnd(s, i + 1)
    then Some(Span(i, DigitsEnd(s, i + 1))) else None
  }

  /** The match of the pattern that starts at p, if any, as the regex engine
      chooses it: each group as long as possible, except that a t/T with no
      conversion character after it is the conversion itself. */
  function MatchAt(s: string, p: nat): (r: Option<RawMatch>)
    requires p <= |s|
    ensures r.Some? ==> r.value.start == p < |s| && IsMatch(s, r.value)
  {
    if p == |s| || s[p] != '%' then None
    else
      var index := IndexAt(s, p);
      var fa := After(index, p + 1);
      var fb := FlagsEnd(s, fa);
      var width := WidthAt(s, fb);
      var precision := PrecisionAt(s, After(width, fb));
      ConversionAt(s, RawMatch(p, 0, index, Span(fa, fb), width, precision, None, 0))
  }

  /** The rest of the match after groups 1 to 4 of g: group 5, t or T when
      a conversion character follows it, then the conversion. */
  function ConversionAt(s: string, g: RawMatch): (r: Option<RawMatch>)
    requires g.start < |s| && s[g.start] == '%'
    requires IndexGroup(s, g.start + 1, g.index) && g.flags.start == After(g.index, g.start + 1)
    requires g.flags.start <= g.flags.end <= |s| && FlagCharsIn(s, g.flags.start, g.flags.end)
    requires WidthGroup(s, g.flags.end, g.width) && WidthEnd(g) <= |s|
    requires PrecisionGroup(s, WidthEnd(g), g.precision) && PrecisionEnd(g) <= |s|
    ensures r.Some? ==> r.value.start == g.start && IsMatch(s, r.value)
    ensures r.Some? ==> r.value.index == g.index && r.value.flags == g.flags && r.value.width == g.width && r.value.precision == g.precision
    ensures r.None? <==> !(PrecisionEnd(g) < |s| && IsConversionChar(s[PrecisionEnd(g)]))
  {
    hide IndexGroup, WidthGroup, PrecisionGroup, FlagCharsIn;
    var q := PrecisionEnd(g);
    if q + 1 < |s| && IsDateTimePrefix(s[q]) && IsConversionChar(s[q + 1]) then
      Some(g.(end := q + 2, tT := Some(q), conversion := q + 1))
    else if q < |s| && IsConversionChar(s[q]) then
      Some(g.(end := q + 1, tT := None, conversion := q))
    else None
  }

  /** No match starts at the end of the input. */
  lemma MatchAtEnd(s: string)
    ensures MatchAt(s, |s|).None?
  {
  }

  /** No match starts in [i, j). */
  predicate NoMatchIn(s: string, i: nat, j: nat)
    requires j <= |s| + 1
  {
    forall p :: i <= p < j ==> MatchAt(s, p).None?
  }

  /** Matcher.find(i): the leftmost match that starts at or after i. */
  function Find(s: string, i: nat): (r: Option<RawMatch>)
    requires i <= |s|
    ensures r.Some? ==> i <= r.value.start < |s| && MatchAt(s, r.value.start) == r && IsMatch(s, r.value)
    ensures r.Some? ==> NoMatchIn(s, i, r.value.start)
    ensures r.None? ==> NoMatchIn(s, i, |s| + 1)
    decreases |s| - i
  {
    hide MatchAt, ConversionAt, IsMatch, IndexAt, FlagsEnd, WidthAt, PrecisionAt;
    if i == |s| then MatchAtEnd(s); None
    else if MatchAt(s, i).Some? then MatchAt(s, i)
    else
      var r := Find(s, i + 1);
      NoMatchInStep(s, i, if r.Some? then r.value.start else |s| + 1);
      r
  }

  lemma NoMatchInStep(s: string, i: nat, j: nat)
    requires i < j <= |s| + 1 && MatchAt(s, i).None?
    ensures NoMatchIn(s, i, j) <==> NoMatchIn(s, i + 1, j)
  {
  }

  // ---------------------------------------------------------------------
  // Properties of the matcher

  /** A match starts at a '%'. */
  lemma MatchStartsAtPercent(s: string, m: RawMatch)
    requires IsMatch(s, m)
    ensures m.start < |s| && s[m.start] == '%'
  {
  }

  /** A run of digits that stops at a non-digit is the one DigitsEnd finds. */
  lemma DigitsEndIs(s: string, i: nat, j: nat)
    requires i <= j <= |s| && DigitsIn(s, i, j) && (j < |s| ==> !IsDigit(s[j]))
    ensures DigitsEnd(s, i) == j
  {
  }

  /** The character after the width of a match is '.', t/T or a conversion
      character: it cannot extend the index, the flags or the width. */
  lemma StopAfterWidth(s: string, m: RawMatch)
    requires IsMatch(s, m)
    ensures WidthEnd(m) < |s|
    ensures var c := s[WidthEnd(m)]; !IsDigit(c) && !IsFlagChar(c) && c != '$'
  {
  }

  /** Greedy group 1 agrees with any match. */
  lemma IndexAtComplete(s: string, m: RawMatch)
    requires IsMatch(s, m)
    ensures IndexAt(s, m.start) == m.index
  {
    var p := m.start;
    if m.index.Some? {
      DigitsEndIs(s, p + 1, m.index.value.end - 1);
    } else {
      StopAfterWidth(s, m);
      var qm := WidthEnd(m);
      // A digit run followed by '$' right after the '%' would have to lie
      // inside the flags and the width, which hold no '$'.
    }
  }

  /** Greedy groups 2 and 3 end where any match's width ends. */
  lemma WidthAtComplete(s: string, m: RawMatch)
    requires IsMatch(s, m)
    ensures m.flags.end <= FlagsEnd(s, m.flags.start) <= WidthEnd(m)
    ensures After(WidthAt(s, FlagsEnd(s, m.flags.start)), FlagsEnd(s, m.flags.start)) == WidthEnd(m)
  {
    StopAfterWidth(s, m);
    var qm := WidthEnd(m);
    var fb := FlagsEnd(s, m.flags.start);
    assert DigitsIn(s, fb, qm);
    DigitsEndIs(s, fb, qm);
  }

  /** Greedy group 4 agrees with any match. */
  lemma PrecisionAtComplete(s: string, m: RawMatch)
    requires IsMatch(s, m)
    ensures PrecisionAt(s, WidthEnd(m)) == m.precision
  {
    if m.precision.Some? {
      DigitsEndIs(s, WidthEnd(m) + 1, m.precision.value.end);
    }
  }

  /** Completeness: wherever the pattern matches, MatchAt finds a match. */
  lemma MatchAtComplete(s: string, m: RawMatch)
    requires IsMatch(s, m)
    ensures MatchAt(s, m.start).Some?
  {
    IndexAtComplete(s, m);
    WidthAtComplete(s, m);
    PrecisionAtComplete(s, m);
    var p := m.start;
    var fb := FlagsEnd(s, m.flags.start);
    var width := WidthAt(s, fb);
    assert PrecisionEnd(m) < |s| && IsConversionChar(s[PrecisionEnd(m)]);
    hide MatchAt, IsMatch;
    ConversionAfterGroups(s, p, fb, width);
  }

  /** MatchAt at a '%' succeeds when a conversion character stands after
      the greedy groups. */
  lemma ConversionAfterGroups(s: string, p: nat, fb: nat, width: Option<Span>)
    requires p < |s| && s[p] == '%'
    requires fb == FlagsEnd(s, After(IndexAt(s, p), p + 1)) && width == WidthAt(s, fb)
    requires var q := After(PrecisionAt(s, After(width, fb)), After(width, fb)); q < |s| && IsConversionChar(s[q])
    ensures MatchAt(s, p).Some?
  {
  }

  /** The one backtracking case: a t/T becomes the conversion only when no
      conversion character follows it. */
  lemma DateTimePrefixAsConversion(s: string, p: nat)
    requires p <= |s| && MatchAt(s, p).Some?
    requires IsDateTimePrefix(s[MatchAt(s, p).value.conversion])
    ensures MatchAt(s, p).value.tT.None? ==>
      var e := MatchAt(s, p).value.end; e == |s| || !IsConversionChar(s[e])
  {
  }

  /** MatchAt makes every group as long as it can be: the index is taken
      whenever the digits after '%' end in '$', the flags, width and precision
      stop at the first character that cannot extend them. */
  lemma MatchAtGreedy(s: string, p: nat)
    requires p <= |s| && MatchAt(s, p).Some?
    ensures var m := MatchAt(s, p).value;
      && (m.index.None? ==> !(DigitsEnd(s, p + 1) < |s| && p + 1 < DigitsEnd(s, p + 1) && s[DigitsEnd(s, p + 1)] == '$'))
      && (m.flags.end < |s| ==> !IsFlagChar(s[m.flags.end]))
      && (WidthEnd(m) < |s| ==> !IsDigit(s[WidthEnd(m)]))
      && (m.precision.Some? ==> m.precision.value.end < |s| ==> !IsDigit(s[m.precision.value.end]))
  {
    MatchAtGroups(s, p);
    hide MatchAt, ConversionAt;
  }

  /** The groups of MatchAt's match are the greedy ones. */
  lemma MatchAtGroups(s: string, p: nat)
    requires p <= |s| && MatchAt(s, p).Some?
    ensures var m := MatchAt(s, p).value;
      && m.index == IndexAt(s, p)
      && m.flags == Span(After(m.index, p + 1), FlagsEnd(s, After(m.index, p + 1)))
      && m.width == WidthAt(s, m.flags.end)
      && m.precision == PrecisionAt(s, WidthEnd(m))
  {
    hide ConversionAt;
  }
}
