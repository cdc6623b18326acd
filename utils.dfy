/** com.indigobyte.helper.Utils: list difference and the joining helpers the
    plugin's messages are built with. A collection is a sequence in
    iteration order; Objects.toString of an element is the show function. */
module Utils {
  import opened Wrappers

  // ---------------------------------------------------------------------
  // removeAll

  /** given without any element that occurs in found, order kept. */
  function Without<T(==)>(given: seq<T>, found: seq<T>): (r: seq<T>)
    ensures |r| <= |given|
    decreases |given|
  {
    if given == [] then []
    else (if given[0] in found then [] else [given[0]]) + Without(given[1..], found)
  }

  /** Without keeps exactly the elements missing from found, and all their
      occurrences. */
  lemma {:induction false} WithoutCount<T>(given: seq<T>, found: seq<T>, x: T)
    ensures multiset(Without(given, found))[x] == if x in found then 0 else multiset(given)[x]
    decreases |given|
  {
    if given != [] {
      WithoutCount(given[1..], found, x);
      assert given == [given[0]] + given[1..];
    }
  }

  /** Without distributes over concatenation, so it keeps the order of given. */
  lemma {:induction false} WithoutAppend<T>(a: seq<T>, b: seq<T>, found: seq<T>)
    ensures Without(a + b, found) == Without(a, found) + Without(b, found)
    decreases |a|
  {
    if a != [] {
      WithoutAppend(a[1..], b, found);
      assert (a + b)[1..] == a[1..] + b;
      assert (a + b)[0] == a[0];
    } else {
      assert a + b == b;
    }
  }

  lemma WithoutMembership<T>(given: seq<T>, found: seq<T>, x: T)
    ensures x in Without(given, found) <==> x in given && x !in found
  {
    WithoutCount(given, found, x);
  }

  /** ArrayList.removeAll(found) on a copy of given: the loop that keeps each
      element found does not contain. */
  method RemoveAll<T(==)>(given: seq<T>, found: seq<T>) returns (r: seq<T>)
    ensures r == Without(given, found)
  {
    r := [];
    var i := 0;
    while i < |given|
      invariant 0 <= i <= |given|
      invariant r + Without(given[i..], found) == Without(given, found)
    {
      assert given[i..] == [given[i]] + given[i + 1..];
      if given[i] !in found {
        r := r + [given[i]];
      }
      i := i + 1;
    }
  }

  // ---------------------------------------------------------------------
  // join and collectionToString

  /** Collectors.joining(delimiter): the elements, one delimiter between each
      two, built from the left as StringJoiner appends them. */
  function Joined(items: seq<string>, delimiter: string): string
    decreases |items|
  {
    if items == [] then ""
    else if |items| == 1 then items[0]
    else Joined(items[..|items| - 1], delimiter) + delimiter + items[|items| - 1]
  }

  /** The same text read from the right: the first element, then a
      delimiter before each further one. */
  lemma {:induction false} JoinedFromFront(items: seq<string>, delimiter: string)
    requires |items| >= 2
    ensures Joined(items, delimiter) == items[0] + delimiter + Joined(items[1..], delimiter)
    decreases |items|
  {
    var n := |items|;
    if n > 2 {
      JoinedFromFront(items[..n - 1], delimiter);
      assert items[..n - 1][1..] == items[1..][..n - 2];
      assert items[..n - 1][0] == items[0];
    } else {
      assert items[1..] == [items[1]];
    }
  }

  /** Joining a concatenation puts one delimiter between the two parts. */
  lemma {:induction false} JoinedAppend(a: seq<string>, b: seq<string>, delimiter: string)
    requires a != [] && b != []
    ensures Joined(a + b, delimiter) == Joined(a, delimiter) + delimiter + Joined(b, delimiter)
    decreases |b|
  {
    if |b| == 1 {
      assert (a + b)[..|a + b| - 1] == a;
    } else {
      var b' := b[..|b| - 1];
      JoinedAppend(a, b', delimiter);
      assert (a + b)[..|a + b| - 1] == a + b';
    }
  }

  function Map<T>(items: seq<T>, show: T -> string): (r: seq<string>)
    ensures |r| == |items| && forall k :: 0 <= k < |items| ==> r[k] == show(items[k])
  {
    seq(|items|, k requires 0 <= k < |items| => show(items[k]))
  }

  /** Utils.join(items, delimiter, prefix, suffix). */
  function JoinAffixed<T>(items: seq<T>, show: T -> string, delimiter: string, prefix: string, suffix: string): (r: string)
    ensures |r| >= |prefix| + |suffix|
    ensures r[..|prefix|] == prefix && r[|r| - |suffix|..] == suffix
    ensures r[|prefix|..|r| - |suffix|] == Joined(Map(items, show), delimiter)
  {
    var r := prefix + Joined(Map(items, show), delimiter) + suffix;
    assert r[..|prefix|] == prefix;
    assert r[|prefix|..|r| - |suffix|] == Joined(Map(items, show), delimiter);
    r
  }

  /** Utils.join(items, delimiter): no prefix or suffix. */
  function Join<T>(items: seq<T>, show: T -> string, delimiter: string): (r: string)
    ensures r == Joined(Map(items, show), delimiter)
  {
    JoinAffixed(items, show, delimiter, "", "")
  }

  /** Utils.collectionToString: a null collection (None) gives "null", an
      empty one "[empty collection]", any other its elements joined with
      ", ". */
  function CollectionToString<T>(items: Option<seq<T>>, show: T -> string): (r: string)
    ensures items.None? ==> r == "null"
    ensures items == Some([]) ==> r == "[empty collection]"
    ensures items.Some? && items.value != [] ==> r == Joined(Map(items.value, show), ", ")
  {
    match items
    case None => "null"
    case Some(xs) => if xs == [] then "[empty collection]" else Join(xs, show, ", ")
  }

  /** A single element is shown on its own. */
  lemma CollectionOfOne<T>(x: T, show: T -> string)
    ensures CollectionToString(Some([x]), show) == show(x)
  {
    assert Map([x], show) == [show(x)];
  }

  /** Utils.createMessage(given, found): both collections and what given
      has that found lacks. */
  method CreateMessage<T(==)>(given: seq<T>, found: seq<T>, show: T -> string) returns (r: string)
    ensures r == "Given: " + CollectionToString(Some(given), show) + ", found: " +
      CollectionToString(Some(found), show) + ". Missing: " + CollectionToString(Some(Without(given, found)), show)
  {
    var missingIds := RemoveAll(given, found);
    r := "Given: " + CollectionToString(Some(given), show) + ", found: " +
      CollectionToString(Some(found), show) + ". Missing: " + CollectionToString(Some(missingIds), show);
  }
}
