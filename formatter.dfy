/** Formatter.parse: splitting a format string into fixed text and format
    specifiers, rejecting any '%' that does not start a specifier. */
module Formatter {
  import opened Wrappers
  import opened FormatErrors
  import opened FormatPattern
  import opened FormatSpecifier

  /** A FormatString segment with the region of the input it stands for:
      FixedString(s, start, end), or a FormatSpecifier built from the match
      s[start..end]. */
  datatype Segment =
    | FixedString(start: nat, end: nat)
    | Spec(spec: Specifier, start: nat, end: nat)

  /** The static checkText: the first '%' in s[start..end] is an invalid
      specifier, reported with the character after it, or '%' when it ends
      the region. */
  function TextError(s: string, start: nat, end: nat): (r: Option<FormatError>)
    requires start <= end <= |s|
    ensures r.None? <==> forall k :: start <= k < end ==> s[k] != '%'
    decreases end - start
  {
    if start == end then None
    else if s[start] == '%' then
      Some(UnknownFormatConversion([if start == end - 1 then '%' else s[start + 1]]))
    else TextError(s, start + 1, end)
  }

  /** checkText(s, start, end): the scanning loop. */
  method CheckText(s: string, start: nat, end: nat) returns (r: Option<FormatError>)
    requires start <= end <= |s|
    ensures r == TextError(s, start, end)
  {
    var i := start;
    while i < end
      invariant start <= i <= end
      invariant TextError(s, start, end) == TextError(s, i, end)
    {
      if s[i] == '%' {
        var c := if i == end - 1 then '%' else s[i + 1];
        return Some(UnknownFormatConversion([c]));
      }
      i := i + 1;
    }
    return None;
  }

  /** The segments of s from position i, or the first exception: none
      at the end of s, otherwise starting with one at i. */
  function ParseFrom(s: string, i: nat): (r: Result<seq<Segment>, FormatError>)
    requires i <= |s|
    ensures r.Success? ==> (r.value == [] <==> i == |s|)
    ensures r.Success? && r.value != [] ==> r.value[0].start == i
    decreases |s| - i, 1
  {
    if i == |s| then Success([])
    else match Find(s, i)
      case None =>
        if TextError(s, i, |s|).Some? then Failure(TextError(s, i, |s|).value)
        else Success([FixedString(i, |s|)])
      case Some(m) => ParseFound(s, i, m)
  }

  /** The segments from i when the next match is m: the gap before m is
      checked, then the specifier is built, then the scan goes on after m. */
  function ParseFound(s: string, i: nat, m: RawMatch): (r: Result<seq<Segment>, FormatError>)
    requires i < |s| && Find(s, i) == Some(m)
    ensures r.Success? ==> r.value != [] && r.value[0].start == i
    decreases |s| - i, 0
  {
    if m.start != i && TextError(s, i, m.start).Some? then Failure(TextError(s, i, m.start).value)
    else
      var sp :- Decode(s, m);
      var rest :- ParseFrom(s, m.end);
      Success((if m.start != i then [FixedString(i, m.start)] else []) + [Spec(sp, m.start, m.end)] + rest)
  }

  /** What Formatter.parse(s) returns or throws: on success, segments
      that tile s, concatenate back to it, and hold in each specifier what
      its match decodes to. */
  function ParseFormat(s: string): (r: Result<seq<Segment>, FormatError>)
    ensures r.Failure? ==> exists k :: 0 <= k < |s| && s[k] == '%'
    ensures r.Success? ==> Tiles(s, r.value, 0) && Concat(s, r.value, 0) == s && SpecsMatch(s, r.value)
  {
    ParseFromNeedsPercent(s, 0);
    if ParseFrom(s, 0).Success? then
      ParseFromTiles(s, 0);
      ParseFromSpecs(s, 0);
      TilesConcat(s, ParseFrom(s, 0).value, 0);
      ParseFrom(s, 0)
    else ParseFrom(s, 0)
  }

  /** Segments already collected, ahead of the outcome of the rest. */
  function Prepend(al: seq<Segment>, rest: Result<seq<Segment>, FormatError>): Result<seq<Segment>, FormatError> {
    if rest.Success? then Success(al + rest.value) else rest
  }

  /** One round of the parse loop when m.find(i) succeeds, after the
      segments al. */
  lemma ParseFromFound(s: string, i: nat, m: RawMatch, al: seq<Segment>)
    requires i < |s| && Find(s, i) == Some(m)
    ensures var gap := if m.start != i then [FixedString(i, m.start)] else [];
      Prepend(al, ParseFrom(s, i)) ==
        if m.start != i && TextError(s, i, m.start).Some? then Failure(TextError(s, i, m.start).value)
        else if Decode(s, m).Failure? then Failure(Decode(s, m).error)
        else Prepend(al + gap + [Spec(Decode(s, m).value, m.start, m.end)], ParseFrom(s, m.end))
  {
    hide Decode, Find, TextError;
    var gap := if m.start != i then [FixedString(i, m.start)] else [];
    if !(m.start != i && TextError(s, i, m.start).Some?) && Decode(s, m).Success? {
      var seg := gap + [Spec(Decode(s, m).value, m.start, m.end)];
      ParseFoundRest(s, i, m);
      hide ParseFrom, ParseFound;
      PrependPrepend(al, seg, ParseFrom(s, m.end));
      assert al + seg == al + gap + [Spec(Decode(s, m).value, m.start, m.end)];
    }
  }

  lemma ParseFoundRest(s: string, i: nat, m: RawMatch)
    requires i < |s| && Find(s, i) == Some(m)
    requires !(m.start != i && TextError(s, i, m.start).Some?) && Decode(s, m).Success?
    ensures ParseFrom(s, i) ==
      Prepend((if m.start != i then [FixedString(i, m.start)] else []) + [Spec(Decode(s, m).value, m.start, m.end)], ParseFrom(s, m.end))
  {
    hide Decode, Find, TextError;
  }

  /** ParseFromFound in the order of the loop's steps: the gap's check,
      then the specifier, then the segments after them. */
  lemma ParseRound(s: string, i: nat, m: RawMatch, al: seq<Segment>)
    requires i < |s| && Find(s, i) == Some(m)
    ensures m.start != i && TextError(s, i, m.start).Some? ==>
      Prepend(al, ParseFrom(s, i)) == Failure(TextError(s, i, m.start).value)
    ensures var al1 := if m.start != i then al + [FixedString(i, m.start)] else al;
      !(m.start != i && TextError(s, i, m.start).Some?) ==>
        && (Decode(s, m).Failure? ==> Prepend(al, ParseFrom(s, i)) == Failure(Decode(s, m).error))
        && (Decode(s, m).Success? ==>
              Prepend(al, ParseFrom(s, i)) == Prepend(al1 + [Spec(Decode(s, m).value, m.start, m.end)], ParseFrom(s, m.end)))
  {
    hide *;
    ParseFromFound(s, i, m, al);
    var gap := if m.start != i then [FixedString(i, m.start)] else [];
    assert (if m.start != i then al + [FixedString(i, m.start)] else al) == al + gap;
  }

  /** The last round of the parse loop, when m.find(i) fails. */
  lemma ParseFromNotFound(s: string, i: nat, al: seq<Segment>)
    requires i < |s| && Find(s, i).None?
    ensures Prepend(al, ParseFrom(s, i)) ==
      if TextError(s, i, |s|).Some? then Failure(TextError(s, i, |s|).value) else Success(al + [FixedString(i, |s|)])
  {
  }

  lemma PrependNothing(rest: Result<seq<Segment>, FormatError>)
    ensures Prepend([], rest) == rest
  {
    if rest.Success? {
      assert [] + rest.value == rest.value;
    }
  }

  lemma PrependDone(al: seq<Segment>)
    ensures Prepend(al, Success([])) == Success(al)
  {
    assert al + [] == al;
  }

  lemma PrependPrepend(al: seq<Segment>, more: seq<Segment>, rest: Result<seq<Segment>, FormatError>)
    ensures Prepend(al, Prepend(more, rest)) == Prepend(al + more, rest)
  {
    if rest.Success? {
      assert al + (more + rest.value) == (al + more) + rest.value;
    }
  }

  /** Formatter.parse: the loop over m.find(i), appending to al. */
  method Parse(s: string) returns (r: Result<seq<Segment>, FormatError>)
    ensures r == ParseFormat(s)
  {
    var al: seq<Segment> := [];
    var i: nat := 0;
    var len := |s|;
    ghost var whole := ParseFrom(s, 0);
    assert ParseFormat(s) == whole && ParseFrom(s, |s|) == Success([]);
    PrependNothing(whole);
    hide ParseFormat, ParseFrom, ParseFound, Decode, Find, TextError, MatchAt, Tiles, Concat, SpecsMatch, IsMatch, Prepend;
    while i < len
      invariant i <= len
      invariant whole == Prepend(al, ParseFrom(s, i))
      decreases len - i
    {
      var found := Find(s, i);
      if found.Some? {
        var m := found.value;
        ParseRound(s, i, m, al);
        if m.start != i {
          var err := CheckText(s, i, m.start);
          if err.Some? {
            return Failure(err.value);
          }
          al := al + [FixedString(i, m.start)];
        }
        var sp := NewFormatSpecifier(s, m);
        if sp.Failure? {
          return Failure(sp.error);
        }
        al := al + [Spec(sp.value, m.start, m.end)];
        i := m.end;
      } else {
        ParseFromNotFound(s, i, al);
        var err := CheckText(s, i, len);
        if err.Some? {
          return Failure(err.value);
        }
        al := al + [FixedString(i, |s|)];
        return Success(al);
      }
    }
    PrependDone(al);
    return Success(al);
  }

  // ---------------------------------------------------------------------
  // The segments tile the input

  /** The input text a segment stands for. */
  function SegmentText(s: string, seg: Segment): string
    requires seg.start <= seg.end <= |s|
  {
    s[seg.start..seg.end]
  }

  /** segs cover s[i..] in order, without gaps or overlaps: each segment is
      non-empty, and each fixed string holds no '%' and is followed by a
      specifier or ends the list. */
  ghost predicate Tiles(s: string, segs: seq<Segment>, i: nat)
    decreases |segs|
  {
    if segs == [] then i == |s|
    else
      var seg := segs[0];
      && seg.start == i && i < seg.end <= |s|
      && (seg.FixedString? ==>
            (forall k :: seg.start <= k < seg.end ==> s[k] != '%') && (|segs| > 1 ==> segs[1].Spec?))
      && Tiles(s, segs[1..], seg.end)
  }

  /** A specifier segment spans the match at its start, and holds what that
      match decodes to. */
  ghost predicate SpecMatches(s: string, seg: Segment) {
    seg.Spec? ==>
      seg.start <= |s| && MatchAt(s, seg.start).Some? && MatchAt(s, seg.start).value.end == seg.end
      && Decode(s, MatchAt(s, seg.start).value) == Success(seg.spec)
  }

  ghost predicate SpecsMatch(s: string, segs: seq<Segment>) {
    forall k :: 0 <= k < |segs| ==> SpecMatches(s, segs[k])
  }

  /** The texts of the segments, concatenated. */
  ghost function Concat(s: string, segs: seq<Segment>, i: nat): string
    requires Tiles(s, segs, i)
    decreases |segs|
  {
    if segs == [] then [] else SegmentText(s, segs[0]) + Concat(s, segs[1..], segs[0].end)
  }

  lemma TilesSpec(s: string, spec: Segment, rest: seq<Segment>)
    requires spec.Spec? && spec.start < spec.end
    requires Tiles(s, rest, spec.end)
    ensures Tiles(s, [spec] + rest, spec.start)
  {
    assert ([spec] + rest)[1..] == rest;
  }

  lemma TilesFixed(s: string, i: nat, j: nat, rest: seq<Segment>)
    requires i < j <= |s| && forall k :: i <= k < j ==> s[k] != '%'
    requires Tiles(s, rest, j) && rest != [] && rest[0].Spec?
    ensures Tiles(s, [FixedString(i, j)] + rest, i)
  {
    assert ([FixedString(i, j)] + rest)[1..] == rest;
  }

  /** Whatever parse returns tiles the input from where it started. */
  lemma {:induction false} ParseFromTiles(s: string, i: nat)
    requires i <= |s| && ParseFrom(s, i).Success?
    ensures Tiles(s, ParseFrom(s, i).value, i)
    decreases |s| - i
  {
    if i < |s| {
      match Find(s, i)
      case None =>
        ParseFromNotFound(s, i, []);
        assert Tiles(s, [], |s|);
      case Some(m) =>
        ParseFromFound(s, i, m, []);
        hide ParseFrom, ParseFound, Decode, Find, TextError, MatchAt, IsMatch, Tiles;
        ParseFromTiles(s, m.end);
        var gap := if m.start != i then [FixedString(i, m.start)] else [];
        TilesRound(s, i, m.start, m.end, Decode(s, m).value, ParseFrom(s, m.end).value);
        assert [] + gap + [Spec(Decode(s, m).value, m.start, m.end)] == gap + [Spec(Decode(s, m).value, m.start, m.end)];
    }
  }

  /** The round that finds a match at [start, end) adds a fixed string for
      the gap, if any, and the specifier, ahead of the segments of the rest. */
  lemma TilesRound(s: string, i: nat, start: nat, end: nat, sp: Specifier, rest: seq<Segment>)
    requires i <= start < end <= |s| && (forall k :: i <= k < start ==> s[k] != '%')
    requires Tiles(s, rest, end)
    ensures Tiles(s, (if start != i then [FixedString(i, start)] else []) + [Spec(sp, start, end)] + rest, i)
  {
    var spec := Spec(sp, start, end);
    TilesSpec(s, spec, rest);
    if start != i {
      TilesFixed(s, i, start, [spec] + rest);
      assert [FixedString(i, start)] + [spec] + rest == [FixedString(i, start)] + ([spec] + rest);
    } else {
      assert [] + [spec] + rest == [spec] + rest;
    }
  }

  /** Each specifier parse returns is the decoding of the match at its start. */
  lemma {:induction false} ParseFromSpecs(s: string, i: nat)
    requires i <= |s| && ParseFrom(s, i).Success?
    ensures SpecsMatch(s, ParseFrom(s, i).value)
    decreases |s| - i
  {
    if i < |s| {
      match Find(s, i)
      case None =>
        ParseFromNotFound(s, i, []);
        assert ParseFrom(s, i).value == [FixedString(i, |s|)];
      case Some(m) =>
        ParseFromFound(s, i, m, []);
        ParseFromSpecs(s, m.end);
        var spec := Spec(Decode(s, m).value, m.start, m.end);
        assert SpecMatches(s, spec);
        var gap := if m.start != i then [FixedString(i, m.start)] else [];
        SpecsMatchAppend(s, gap + [spec], ParseFrom(s, m.end).value);
        assert [] + gap + [spec] + ParseFrom(s, m.end).value == (gap + [spec]) + ParseFrom(s, m.end).value;
    }
  }

  lemma SpecsMatchAppend(s: string, a: seq<Segment>, b: seq<Segment>)
    requires SpecsMatch(s, a) && SpecsMatch(s, b)
    ensures SpecsMatch(s, a + b)
  {
    forall k | 0 <= k < |a + b| ensures SpecMatches(s, (a + b)[k]) {
      if k >= |a| { assert (a + b)[k] == b[k - |a|]; }
    }
  }

  /** Tiling segments spell out the input exactly. */
  lemma {:induction false} TilesConcat(s: string, segs: seq<Segment>, i: nat)
    requires Tiles(s, segs, i)
    ensures i <= |s| && Concat(s, segs, i) == s[i..]
    decreases |segs|
  {
    if segs != [] {
      TilesConcat(s, segs[1..], segs[0].end);
      assert s[i..] == s[i..segs[0].end] + s[segs[0].end..];
    }
  }

  /** parse throws only when there is a '%' from i on. */
  lemma {:induction false} ParseFromNeedsPercent(s: string, i: nat)
    requires i <= |s|
    ensures ParseFrom(s, i).Failure? ==> exists k :: i <= k < |s| && s[k] == '%'
    decreases |s| - i
  {
    if i < |s| && Find(s, i).Some? {
      var m := Find(s, i).value;
      MatchStartsAtPercent(s, m);
      ParseFromNeedsPercent(s, m.end);
    }
  }

  /** No match can start where there is no '%'. */
  lemma NoMatchWithoutPercent(s: string, i: nat)
    requires i <= |s| && forall k :: i <= k < |s| ==> s[k] != '%'
    ensures Find(s, i).None?
  {
  }

  /** The empty string has no segments; a non-empty string without '%' is
      one fixed string. */
  lemma ParsePlainText(s: string)
    requires forall k :: 0 <= k < |s| ==> s[k] != '%'
    ensures ParseFormat(s) == Success(if s == [] then [] else [FixedString(0, |s|)])
  {
    NoMatchWithoutPercent(s, 0);
  }

  /** checkText reports the first '%' of the region. */
  lemma {:induction false} TextErrorFirst(s: string, start: nat, end: nat, p: nat)
    requires start <= p < end <= |s| && s[p] == '%'
    requires forall k :: start <= k < p ==> s[k] != '%'
    ensures TextError(s, start, end) == Some(UnknownFormatConversion([if p == end - 1 then '%' else s[p + 1]]))
    decreases p - start
  {
    if start < p {
      TextErrorFirst(s, start + 1, end, p);
    }
  }

  /** A '%' that starts no specifier, with only fixed text before it, is
      UnknownFormatConversionException carrying the character after it, or
      '%' at the end of the string. */
  lemma StrayPercent(s: string, i: nat, p: nat)
    requires i <= p < |s| && s[p] == '%' && MatchAt(s, p).None?
    requires forall k :: i <= k < p ==> s[k] != '%'
    ensures ParseFrom(s, i) == Failure(UnknownFormatConversion([if p + 1 < |s| then s[p + 1] else '%']))
  {
    if Find(s, i).None? {
      StrayPercentAtEnd(s, i, p);
    } else {
      StrayPercentBeforeMatch(s, i, p, Find(s, i).value);
    }
  }

  lemma StrayPercentAtEnd(s: string, i: nat, p: nat)
    requires i <= p < |s| && s[p] == '%' && Find(s, i).None?
    requires forall k :: i <= k < p ==> s[k] != '%'
    ensures ParseFrom(s, i) == Failure(UnknownFormatConversion([if p + 1 < |s| then s[p + 1] else '%']))
  {
    TextErrorFirst(s, i, |s|, p);
  }

  lemma StrayPercentBeforeMatch(s: string, i: nat, p: nat, m: RawMatch)
    requires i <= p < |s| && s[p] == '%' && MatchAt(s, p).None?
    requires forall k :: i <= k < p ==> s[k] != '%'
    requires Find(s, i) == Some(m)
    ensures ParseFrom(s, i) == Failure(UnknownFormatConversion([if p + 1 < |s| then s[p + 1] else '%']))
  {
    hide Decode;
    StrayBeforeMatch(s, i, p, m);
    TextErrorFirst(s, i, m.start, p);
    assert ParseFrom(s, i) == ParseFound(s, i, m);
  }

  /** The next match starts after a '%' that starts none. */
  lemma StrayBeforeMatch(s: string, i: nat, p: nat, m: RawMatch)
    requires i <= p < |s| && MatchAt(s, p).None?
    requires forall k :: i <= k < p ==> s[k] != '%'
    requires i <= |s| && Find(s, i) == Some(m)
    ensures p < m.start
  {
    hide *;
    MatchStartsAtPercent(s, m);
  }
}
