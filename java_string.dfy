/** The java.lang.String operations the plugin's string derivations use:
    split around a single character, trim, indexOf, lastIndexOf and
    startsWith, with the JDK's edge cases. */
module JavaString {

  // ---------------------------------------------------------------------
  // split

  /** s cut at every occurrence of sep, empty pieces included. */
  function Pieces(s: string, sep: char): (r: seq<string>)
    ensures |r| > 0
    ensures forall k :: 0 <= k < |r| ==> sep !in r[k]
    decreases |s|
  {
    if s == [] then [[]]
    else
      var rest := Pieces(s[1..], sep);
      if s[0] == sep then [[]] + rest else [[s[0]] + rest[0]] + rest[1..]
  }

  /** The pieces joined with sep between them. */
  function JoinWith(pieces: seq<string>, sep: char): string
    decreases |pieces|
  {
    if pieces == [] then []
    else if |pieces| == 1 then pieces[0]
    else pieces[0] + [sep] + JoinWith(pieces[1..], sep)
  }

  /** Cutting and re-joining gives the string back. */
  lemma {:induction false} PiecesJoin(s: string, sep: char)
    ensures JoinWith(Pieces(s, sep), sep) == s
    decreases |s|
  {
    if s != [] {
      PiecesJoin(s[1..], sep);
      var rest := Pieces(s[1..], sep);
      if s[0] == sep {
        assert ([[]] + rest)[1..] == rest;
      } else {
        var r := [[s[0]] + rest[0]] + rest[1..];
        if |rest| == 1 {
          assert r == [[s[0]] + rest[0]];
        } else {
          assert r[1..] == rest[1..];
          assert JoinWith(rest, sep) == rest[0] + [sep] + JoinWith(rest[1..], sep);
        }
      }
    }
  }

  /** Without sep in s there is one piece, s itself. */
  lemma {:induction false} PiecesOfPlain(s: string, sep: char)
    requires sep !in s
    ensures Pieces(s, sep) == [s]
    decreases |s|
  {
    if s != [] {
      PiecesOfPlain(s[1..], sep);
      assert [s[0]] + s[1..] == s;
    }
  }

  /** The pieces without the empty strings that end them. */
  function DropTrailingEmpty(pieces: seq<string>): (r: seq<string>)
    ensures |r| <= |pieces| && r == pieces[..|r|]
    ensures r != [] ==> r[|r| - 1] != []
    ensures forall k :: |r| <= k < |pieces| ==> pieces[k] == []
    decreases |pieces|
  {
    if pieces == [] then []
    else if pieces[|pieces| - 1] == [] then DropTrailingEmpty(pieces[..|pieces| - 1])
    else pieces
  }

  /** String.split with a one-character pattern and no limit: trailing empty
      strings are removed, but a string without the separator is returned
      whole, even when it is empty. */
  function Split(s: string, sep: char): (r: seq<string>)
    ensures forall k :: 0 <= k < |r| ==> sep !in r[k]
  {
    if sep !in s then [s] else DropTrailingEmpty(Pieces(s, sep))
  }

  /** The last piece is empty only when the string ends with sep. */
  lemma {:induction false} PiecesLast(s: string, sep: char)
    requires s != [] && s[|s| - 1] != sep
    ensures Pieces(s, sep)[|Pieces(s, sep)| - 1] != []
    decreases |s|
  {
    if |s| > 1 {
      PiecesLast(s[1..], sep);
    }
  }

  /** When s does not end with sep nothing is dropped: the split is every
      piece, and joining it gives s back. */
  lemma SplitWhole(s: string, sep: char)
    requires s == [] || s[|s| - 1] != sep
    ensures Split(s, sep) == Pieces(s, sep)
    ensures JoinWith(Split(s, sep), sep) == s
  {
    PiecesJoin(s, sep);
    if sep !in s {
      PiecesOfPlain(s, sep);
    } else {
      PiecesLast(s, sep);
    }
  }

  /** Cutting at one occurrence of sep first gives the same pieces. */
  lemma {:induction false} PiecesAppend(a: string, b: string, sep: char)
    ensures Pieces(a + [sep] + b, sep) == Pieces(a, sep) + Pieces(b, sep)
    decreases |a|
  {
    if a == [] {
      assert a + [sep] + b == [sep] + b;
      assert ([sep] + b)[1..] == b;
    } else {
      var s := a + [sep] + b;
      assert s[0] == a[0] && s[1..] == a[1..] + [sep] + b;
      PiecesAppend(a[1..], b, sep);
      var front := Pieces(a[1..], sep);
      if a[0] != sep {
        assert (front + Pieces(b, sep))[1..] == front[1..] + Pieces(b, sep);
      }
    }
  }

  /** Every piece is empty exactly when s is made of sep alone. */
  lemma {:induction false} PiecesAllEmpty(s: string, sep: char)
    ensures (forall k :: 0 <= k < |Pieces(s, sep)| ==> Pieces(s, sep)[k] == []) <==> forall k :: 0 <= k < |s| ==> s[k] == sep
    decreases |s|
  {
    if s != [] {
      PiecesAllEmpty(s[1..], sep);
      var rest := Pieces(s[1..], sep);
      if s[0] == sep {
        var r := [[]] + rest;
        assert Pieces(s, sep) == r;
        assert forall k :: 0 <= k < |rest| ==> rest[k] == r[k + 1];
        assert forall k :: 0 <= k < |s[1..]| ==> s[1..][k] == s[k + 1];
        if forall k :: 0 <= k < |r| ==> r[k] == [] {
          assert forall k :: 0 <= k < |rest| ==> rest[k] == [];
          assert forall k :: 1 <= k < |s| ==> s[k] == s[1..][k - 1];
        }
        if forall k :: 0 <= k < |s| ==> s[k] == sep {
          assert forall k :: 0 <= k < |s[1..]| ==> s[1..][k] == sep;
          assert forall k :: 1 <= k < |r| ==> r[k] == rest[k - 1];
        }
      } else {
        assert Pieces(s, sep)[0] != [];
      }
    } else {
      assert Pieces(s, sep) == [[]];
    }
  }

  /** String.split returns no strings exactly when the string is a non-empty
      run of the separator. */
  lemma SplitEmpty(s: string, sep: char)
    ensures Split(s, sep) == [] <==> s != [] && forall k :: 0 <= k < |s| ==> s[k] == sep
  {
    PiecesAllEmpty(s, sep);
    if sep !in s {
      if s != [] {
        assert s[0] != sep;
      }
    } else {
      var ps := Pieces(s, sep);
      var r := DropTrailingEmpty(ps);
      assert (forall k :: 0 <= k < |ps| ==> ps[k] == []) ==> r == [];
    }
  }

  // ---------------------------------------------------------------------
  // indexOf, lastIndexOf, startsWith, contains

  /** String.startsWith(prefix), which holds exactly when indexOf(prefix)
      is 0. */
  predicate StartsWith(s: string, prefix: string): (r: bool)
    ensures r <==> IndexOf(s, prefix) == 0
  {
    |prefix| <= |s| && s[..|prefix|] == prefix
  }

  predicate OccursAt(s: string, t: string, i: nat) {
    i + |t| <= |s| && s[i..i + |t|] == t
  }

  /** String.indexOf(t, from): the first occurrence at or after from, -1 when
      there is none. */
  function IndexOfFrom(s: string, t: string, from: nat): (r: int)
    ensures r == -1 <==> forall i :: from <= i <= |s| ==> !OccursAt(s, t, i)
    ensures r != -1 ==> from <= r && OccursAt(s, t, r) && forall i :: from <= i < r ==> !OccursAt(s, t, i)
    decreases |s| - from
  {
    if from > |s| then -1
    else if OccursAt(s, t, from) then from
    else IndexOfFrom(s, t, from + 1)
  }

  /** String.indexOf(t): the first occurrence, -1 when there is none. */
  function IndexOf(s: string, t: string): (r: int)
    ensures r == -1 <==> forall i :: 0 <= i <= |s| ==> !OccursAt(s, t, i)
    ensures r != -1 ==> 0 <= r && OccursAt(s, t, r) && forall i :: 0 <= i < r ==> !OccursAt(s, t, i)
  {
    IndexOfFrom(s, t, 0)
  }

  /** String.lastIndexOf(c): the last position of c, -1 when absent. */
  function LastIndexOf(s: string, c: char): (r: int)
    ensures r == -1 <==> c !in s
    ensures r != -1 ==> 0 <= r < |s| && s[r] == c && c !in s[r + 1..]
  {
    if s == [] then -1
    else if s[|s| - 1] == c then |s| - 1
    else
      var r := LastIndexOf(s[..|s| - 1], c);
      assert s == s[..|s| - 1] + [s[|s| - 1]];
      r
  }

  // ---------------------------------------------------------------------
  // trim

  predicate IsSpace(c: char) { c <= ' ' }

  function TrimStart(s: string): (r: string)
    ensures |r| <= |s| && r == s[|s| - |r|..]
    ensures r != [] ==> !IsSpace(r[0])
    ensures forall k :: 0 <= k < |s| - |r| ==> IsSpace(s[k])
    decreases |s|
  {
    if s != [] && IsSpace(s[0]) then TrimStart(s[1..]) else s
  }

  function TrimEnd(s: string): (r: string)
    ensures |r| <= |s| && r == s[..|r|]
    ensures r != [] ==> !IsSpace(r[|r| - 1])
    ensures forall k :: |r| <= k < |s| ==> IsSpace(s[k])
    decreases |s|
  {
    if s != [] && IsSpace(s[|s| - 1]) then TrimEnd(s[..|s| - 1]) else s
  }

  /** r is s[a..b], with only spaces before a and after b. */
  predicate WithinSpaces(s: string, r: string, a: int, b: int) {
    && 0 <= a <= b <= |s| && r == s[a..b]
    && (forall k :: 0 <= k < a ==> IsSpace(s[k]))
    && (forall k :: b <= k < |s| ==> IsSpace(s[k]))
  }

  /** String.trim: the string without the characters up to ' ' at both
      ends. */
  function Trim(s: string): (r: string)
    ensures r == [] || (!IsSpace(r[0]) && !IsSpace(r[|r| - 1]))
    ensures exists a, b :: WithinSpaces(s, r, a, b)
  {
    TrimBothEnds(s);
    TrimWithin(s);
    TrimEnd(TrimStart(s))
  }

  lemma TrimBothEnds(s: string)
    ensures var r := TrimEnd(TrimStart(s)); r == [] || (!IsSpace(r[0]) && !IsSpace(r[|r| - 1]))
  {
    var t := TrimStart(s);
    var r := TrimEnd(t);
    if r != [] {
      assert r[0] == t[0];
    }
  }

  lemma TrimWithin(s: string)
    ensures exists a, b :: WithinSpaces(s, TrimEnd(TrimStart(s)), a, b)
  {
    var t := TrimStart(s);
    var r := TrimEnd(t);
    var a := |s| - |t|;
    TrimSlices(s, t, r);
    assert WithinSpaces(s, r, a, a + |r|);
  }

  /** The text TrimEnd keeps of TrimStart's result sits in s between two
      runs of spaces. */
  lemma TrimSlices(s: string, t: string, r: string)
    requires |t| <= |s| && t == s[|s| - |t|..]
    requires |r| <= |t| && r == t[..|r|]
    requires forall k :: |r| <= k < |t| ==> IsSpace(t[k])
    ensures r == s[|s| - |t|..|s| - |t| + |r|]
    ensures forall k :: |s| - |t| + |r| <= k < |s| ==> IsSpace(s[k])
  {
    var a := |s| - |t|;
    forall k | a + |r| <= k < |s| ensures IsSpace(s[k]) {
      assert s[k] == t[k - a];
    }
  }
}
