/** Formatter.Flags: the bitset of a specifier's flags. The Java class mutates
    its int field in add/remove; every Flags object the parser mutates is one
    it has just created (Flags.parse starts from new Flags(0), toString works
    on dup()), so the model treats a Flags as a value. */
module FormatFlags {
  import opened Wrappers
  import opened FormatErrors

  datatype Flags = Flags(value: bv16) {

    /** Flags.contains: every bit of f is set here. */
    predicate Contains(f: Flags) {
      (value & f.value) == f.value
    }

    /** Flags.add */
    function Add(f: Flags): Flags {
      Flags(value | f.value)
    }

    /** Flags.remove */
    function Remove(f: Flags): Flags {
      Flags(value & !f.value)
    }

    /** Flags.toString: one character per flag, in bit order. */
    function ToString(): string {
      Mark(LeftJustify, '-') + Mark(Uppercase, '^') + Mark(Alternate, '#')
      + Mark(Plus, '+') + Mark(LeadingSpace, ' ') + Mark(ZeroPad, '0')
      + Mark(Group, ',') + Mark(Parentheses, '(') + Mark(Previous, '<')
    }

    /** The character toString writes for flag f: c if f is set, else nothing. */
    function Mark(f: Flags, c: char): string {
      if Contains(f) then [c] else ""
    }
  }

  const NoFlags := Flags(0)
  const LeftJustify := Flags(1)      // '-'
  const Uppercase := Flags(2)        // '^', set internally, never parsed
  const Alternate := Flags(4)        // '#'
  const Plus := Flags(8)             // '+'
  const LeadingSpace := Flags(16)    // ' '
  const ZeroPad := Flags(32)         // '0'
  const Group := Flags(64)           // ','
  const Parentheses := Flags(128)    // '('
  const Previous := Flags(256)       // '<'

  /** The flags a user may write, in the order Flags.toString lists them. */
  const UserFlags: seq<Flags> :=
    [LeftJustify, Alternate, Plus, LeadingSpace, ZeroPad, Group, Parentheses, Previous]

  /** The nine single-bit flags Formatter defines. */
  const AllFlags: seq<Flags> := [Uppercase] + UserFlags

  /** Flags.parse(char): the flag a character denotes, None where Java throws
      UnknownFormatFlagsException. */
  function FlagOf(c: char): (r: Option<Flags>)
    ensures r.Some? ==> r.value in UserFlags
  {
    match c
    case '-' => Some(LeftJustify)
    case '#' => Some(Alternate)
    case '+' => Some(Plus)
    case ' ' => Some(LeadingSpace)
    case '0' => Some(ZeroPad)
    case ',' => Some(Group)
    case '(' => Some(Parentheses)
    case '<' => Some(Previous)
    case _ => None
  }

  /** Flags.parse(s, start, end), continued from position i with the flags
      acc collected from s[start..i]. */
  function ParseFrom(s: string, i: nat, end: nat, acc: Flags): Result<Flags, FormatError>
    requires i <= end <= |s|
    decreases end - i
  {
    if i == end then Success(acc)
    else match FlagOf(s[i])
      case None => Failure(UnknownFormatFlags([s[i]]))
      case Some(v) =>
        if acc.Contains(v) then Failure(DuplicateFormatFlags(v.ToString()))
        else ParseFrom(s, i + 1, end, acc.Add(v))
  }

  /** The flags of s[start..end], as Flags.parse(s, start, end) computes them. */
  function Parsed(s: string, start: nat, end: nat): Result<Flags, FormatError>
    requires start <= end <= |s|
  {
    ParseFrom(s, start, end, NoFlags)
  }

  /** Flags.parse(s, start, end): the loop that adds one flag per character. */
  method Parse(s: string, start: nat, end: nat) returns (r: Result<Flags, FormatError>)
    requires start <= end <= |s|
    ensures r == Parsed(s, start, end)
  {
    var f := NoFlags;
    var i := start;
    while i < end
      invariant start <= i <= end
      invariant Parsed(s, start, end) == ParseFrom(s, i, end, f)
    {
      var v := FlagOf(s[i]);
      if v.None? {
        return Failure(UnknownFormatFlags([s[i]]));
      }
      if f.Contains(v.value) {
        return Failure(DuplicateFormatFlags(v.value.ToString()));
      }
      f := f.Add(v.value);
      i := i + 1;
    }
    return Success(f);
  }

  /** Each flag character denotes its own flag, a single bit distinct from
      every other flag and from Uppercase. */
  lemma FlagCharsDistinct(c: char, d: char)
    requires FlagOf(c).Some? && FlagOf(d).Some?
    ensures FlagOf(c) == FlagOf(d) <==> c == d
    ensures FlagOf(c).value != Uppercase
    ensures SingleBit(FlagOf(c).value)
  {
  }

  /** A flag constant is exactly one bit. */
  predicate SingleBit(f: Flags) {
    f.value != 0 && (f.value & (f.value - 1)) == 0
  }

  /** Adding a flag v changes Contains(f) for the flag v only. */
  lemma AddContains(acc: Flags, v: Flags, f: Flags)
    requires v in AllFlags && f in AllFlags
    ensures acc.Add(v).Contains(f) <==> acc.Contains(f) || v == f
  {
    AddBit(acc.value, v.value, f.value);
  }

  /** Bit b of a | v, for flag bits b and v, taken one bit at a time. */
  lemma AddBit(a: bv16, v: bv16, b: bv16)
    requires b in {1, 2, 4, 8, 16, 32, 64, 128, 256}
    requires v in {1, 2, 4, 8, 16, 32, 64, 128, 256}
    ensures ((a | v) & b == b) <==> (a & b == b) || v == b
  {
    if b == 1 {} else if b == 2 {} else if b == 4 {} else if b == 8 {} else if b == 16 {}
    else if b == 32 {} else if b == 64 {} else if b == 128 {} else {}
  }

  /** Removing a flag v clears Contains(f) for the flag v only. */
  lemma RemoveContains(acc: Flags, v: Flags, f: Flags)
    requires v in AllFlags && f in AllFlags
    ensures acc.Remove(v).Contains(f) <==> acc.Contains(f) && v != f
  {
    RemoveBit(acc.value, v.value, f.value);
  }

  /** Bit b of a & !v, for flag bits b and v, taken one bit at a time. */
  lemma RemoveBit(a: bv16, v: bv16, b: bv16)
    requires b in {1, 2, 4, 8, 16, 32, 64, 128, 256}
    requires v in {1, 2, 4, 8, 16, 32, 64, 128, 256}
    ensures ((a & !v) & b == b) <==> (a & b == b) && v != b
  {
    if b == 1 {} else if b == 2 {} else if b == 4 {} else if b == 8 {} else if b == 16 {}
    else if b == 32 {} else if b == 64 {} else if b == 128 {} else {}
  }

  /** toString of one flag is the character that denotes it ('^' for
      Uppercase), so the DuplicateFormatFlags message names the repeated
      character. */
  lemma FlagToString(c: char)
    requires FlagOf(c).Some?
    ensures FlagOf(c).value.ToString() == [c]
    ensures Uppercase.ToString() == "^"
  {
  }

  /** toString lists a flag's character exactly when the flag is set. */
  lemma ToStringLists(acc: Flags, c: char)
    requires FlagOf(c).Some?
    ensures c in acc.ToString() <==> acc.Contains(FlagOf(c).value)
    ensures '^' in acc.ToString() <==> acc.Contains(Uppercase)
  {
    hide Flags.ToString, Flags.Contains;
    MarksIn(acc, c);
    MarksIn(acc, '^');
  }

  /** A character is in toString iff it is the mark of a flag that is set. */
  lemma MarksIn(acc: Flags, c: char)
    ensures c in acc.ToString() <==>
      || (c == '-' && acc.Contains(LeftJustify)) || (c == '^' && acc.Contains(Uppercase))
      || (c == '#' && acc.Contains(Alternate)) || (c == '+' && acc.Contains(Plus))
      || (c == ' ' && acc.Contains(LeadingSpace)) || (c == '0' && acc.Contains(ZeroPad))
      || (c == ',' && acc.Contains(Group)) || (c == '(' && acc.Contains(Parentheses))
      || (c == '<' && acc.Contains(Previous))
  {
    var m := [acc.Mark(LeftJustify, '-'), acc.Mark(Uppercase, '^'), acc.Mark(Alternate, '#'),
      acc.Mark(Plus, '+'), acc.Mark(LeadingSpace, ' '), acc.Mark(ZeroPad, '0'),
      acc.Mark(Group, ','), acc.Mark(Parentheses, '('), acc.Mark(Previous, '<')];
    InConcat(m[0], m[1], c);
    InConcat(m[0] + m[1], m[2], c);
    InConcat(m[0] + m[1] + m[2], m[3], c);
    InConcat(m[0] + m[1] + m[2] + m[3], m[4], c);
    InConcat(m[0] + m[1] + m[2] + m[3] + m[4], m[5], c);
    InConcat(m[0] + m[1] + m[2] + m[3] + m[4] + m[5], m[6], c);
    InConcat(m[0] + m[1] + m[2] + m[3] + m[4] + m[5] + m[6], m[7], c);
    InConcat(m[0] + m[1] + m[2] + m[3] + m[4] + m[5] + m[6] + m[7], m[8], c);
  }

  lemma InConcat(a: string, b: string, c: char)
    ensures c in a + b <==> c in a || c in b
  {
    if c in a + b {
      var k :| 0 <= k < |a + b| && (a + b)[k] == c;
      if k >= |a| { assert b[k - |a|] == c; }
    }
  }

  /** No character of s[i..end] repeats. */
  predicate NoRepeat(s: string, i: nat, end: nat)
    requires i <= end <= |s|
  {
    forall k, l :: i <= k < l < end ==> s[k] != s[l]
  }

  /** s[i] does not occur again in s[i + 1..end]. */
  predicate NotRepeated(s: string, i: nat, end: nat)
    requires i < end <= |s|
  {
    forall l :: i + 1 <= l < end ==> s[i] != s[l]
  }

  /** No flag written in s[i..end] is already in acc. */
  predicate NoneIn(s: string, i: nat, end: nat, acc: Flags)
    requires i <= end <= |s|
    requires forall k :: i <= k < end ==> FlagOf(s[k]).Some?
  {
    forall k :: i <= k < end ==> !acc.Contains(FlagOf(s[k]).value)
  }

  /** Flags.parse over a run of flag characters, continued with acc: it
      succeeds exactly when no character repeats and none repeats a flag
      already in acc. */
  lemma {:induction false} ParseFromSucceeds(s: string, i: nat, end: nat, acc: Flags)
    requires i <= end <= |s|
    requires forall k :: i <= k < end ==> FlagOf(s[k]).Some?
    ensures ParseFrom(s, i, end, acc).Success? <==> NoRepeat(s, i, end) && NoneIn(s, i, end, acc)
    decreases end - i
  {
    if i < end {
      var v := FlagOf(s[i]).value;
      ParseFromStep(s, i, end, acc);
      NoneInStep(s, i, end, acc);
      hide ParseFrom, Flags.Contains, Flags.Add, NoneIn, NoRepeat, NotRepeated;
      if !acc.Contains(v) {
        ParseFromSucceeds(s, i + 1, end, acc.Add(v));
        NoneInAdded(s, i, end, acc);
        NoRepeatStep(s, i, end);
      }
    }
  }

  lemma NoneInStep(s: string, i: nat, end: nat, acc: Flags)
    requires i < end <= |s|
    requires forall k :: i <= k < end ==> FlagOf(s[k]).Some?
    ensures NoneIn(s, i, end, acc) <==> !acc.Contains(FlagOf(s[i]).value) && NoneIn(s, i + 1, end, acc)
  {
  }

  /** After adding s[i]'s flag, no later flag is in acc iff none was before
      and s[i] does not occur again. */
  lemma NoneInAdded(s: string, i: nat, end: nat, acc: Flags)
    requires i < end <= |s|
    requires forall k :: i <= k < end ==> FlagOf(s[k]).Some?
    ensures NoneIn(s, i + 1, end, acc.Add(FlagOf(s[i]).value)) <==> NoneIn(s, i + 1, end, acc) && NotRepeated(s, i, end)
  {
    var v := FlagOf(s[i]).value;
    forall k | i + 1 <= k < end
      ensures acc.Add(v).Contains(FlagOf(s[k]).value) <==> acc.Contains(FlagOf(s[k]).value) || s[k] == s[i]
    {
      AddContains(acc, v, FlagOf(s[k]).value);
      FlagCharsDistinct(s[k], s[i]);
    }
  }

  lemma NoRepeatStep(s: string, i: nat, end: nat)
    requires i < end <= |s|
    ensures NoRepeat(s, i, end) <==> NoRepeat(s, i + 1, end) && NotRepeated(s, i, end)
  {
  }

  /** One character of a run of flag characters. */
  lemma ParseFromStep(s: string, i: nat, end: nat, acc: Flags)
    requires i < end <= |s| && FlagOf(s[i]).Some?
    ensures ParseFrom(s, i, end, acc) ==
      if acc.Contains(FlagOf(s[i]).value) then Failure(DuplicateFormatFlags(FlagOf(s[i]).value.ToString()))
      else ParseFrom(s, i + 1, end, acc.Add(FlagOf(s[i]).value))
  {
  }

  /** A flag occurs in s[i..end] iff it is s[i]'s or occurs after it. */
  lemma OccursStep(s: string, i: nat, end: nat, f: Flags)
    requires i < end <= |s|
    ensures (exists k :: i <= k < end && FlagOf(s[k]) == Some(f)) <==>
      FlagOf(s[i]) == Some(f) || exists k :: i + 1 <= k < end && FlagOf(s[k]) == Some(f)
  {
    if exists k :: i <= k < end && FlagOf(s[k]) == Some(f) {
      var k :| i <= k < end && FlagOf(s[k]) == Some(f);
      if k != i {
        assert i + 1 <= k < end;
      }
    }
    if exists k :: i + 1 <= k < end && FlagOf(s[k]) == Some(f) {
      var k :| i + 1 <= k < end && FlagOf(s[k]) == Some(f);
      assert i <= k < end;
    }
  }

  /** On success, Flags.parse holds acc's flags plus exactly the flags written. */
  lemma {:induction false} ParseFromContents(s: string, i: nat, end: nat, acc: Flags, f: Flags)
    requires i <= end <= |s|
    requires forall k :: i <= k < end ==> FlagOf(s[k]).Some?
    requires f in AllFlags
    requires ParseFrom(s, i, end, acc).Success?
    ensures ParseFrom(s, i, end, acc).value.Contains(f) <==>
      acc.Contains(f) || exists k :: i <= k < end && FlagOf(s[k]) == Some(f)
    decreases end - i
  {
    if i < end {
      var v := FlagOf(s[i]).value;
      ParseFromStep(s, i, end, acc);
      OccursStep(s, i, end, f);
      hide ParseFrom, Flags.Contains, Flags.Add;
      assert ParseFrom(s, i, end, acc) == ParseFrom(s, i + 1, end, acc.Add(v));
      ParseFromContents(s, i + 1, end, acc.Add(v), f);
      AddContains(acc, v, f);
    }
  }

  /** Flags.parse over a run of flag characters: a repeated character raises
      DuplicateFormatFlagsException; otherwise the result contains a flag iff
      its character occurs in the run, and never Uppercase. */
  lemma ParsedFlags(s: string, start: nat, end: nat)
    requires start <= end <= |s|
    requires forall k :: start <= k < end ==> FlagOf(s[k]).Some?
    ensures Parsed(s, start, end).Success? <==> forall k, l :: start <= k < l < end ==> s[k] != s[l]
    ensures Parsed(s, start, end).Failure? ==> Parsed(s, start, end).error.DuplicateFormatFlags?
    ensures Parsed(s, start, end).Success? ==>
      forall f :: f in AllFlags ==>
        (Parsed(s, start, end).value.Contains(f) <==> exists k :: start <= k < end && FlagOf(s[k]) == Some(f))
  {
    ParseFromSucceeds(s, start, end, NoFlags);
    DuplicateOnly(s, start, end, NoFlags);
    if Parsed(s, start, end).Success? {
      forall f | f in AllFlags
        ensures Parsed(s, start, end).value.Contains(f) <==> exists k :: start <= k < end && FlagOf(s[k]) == Some(f)
      {
        ParseFromContents(s, start, end, NoFlags, f);
      }
    }
  }

  /** Over flag characters the only error Flags.parse can raise is a duplicate. */
  lemma {:induction false} DuplicateOnly(s: string, i: nat, end: nat, acc: Flags)
    requires i <= end <= |s|
    requires forall k :: i <= k < end ==> FlagOf(s[k]).Some?
    ensures ParseFrom(s, i, end, acc).Failure? ==> ParseFrom(s, i, end, acc).error.DuplicateFormatFlags?
    decreases end - i
  {
    if i < end && !acc.Contains(FlagOf(s[i]).value) {
      DuplicateOnly(s, i + 1, end, acc.Add(FlagOf(s[i]).value));
    }
  }
}
