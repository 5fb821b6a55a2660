/**
 * The list of partition elements of a partitioned tree: the distinct values
 * of the element trait, sorted lexicographically by code point with a
 * proper prefix first, and the two lookups between an element
 * name and its index in that list.
 */
module ElementList {

  datatype Result<T> = Ok(value: T) | Err(error: string)

  /** a comes before b, comparing code points from the left; a proper prefix
    * comes first.  Java's String.compareTo orders the same way on text of
    * the Basic Multilingual Plane. */
  predicate LexLess(a: string, b: string)
  {
    if |a| == 0 then |b| > 0
    else if |b| == 0 then false
    else if a[0] != b[0] then a[0] < b[0]
    else LexLess(a[1..], b[1..])
  }

  lemma {:induction false} LexLessIrreflexive(a: string)
    ensures !LexLess(a, a)
    decreases |a|
  {
    if |a| > 0 {
      LexLessIrreflexive(a[1..]);
    }
  }

  lemma {:induction false} LexLessTransitive(a: string, b: string, c: string)
    requires LexLess(a, b) && LexLess(b, c)
    ensures LexLess(a, c)
    decreases |a|
  {
    if |a| > 0 && |b| > 0 && |c| > 0 && a[0] == b[0] && b[0] == c[0] {
      LexLessTransitive(a[1..], b[1..], c[1..]);
    }
  }

  lemma {:induction false} LexLessTotal(a: string, b: string)
    ensures a == b || LexLess(a, b) || LexLess(b, a)
    decreases |a|
  {
    if |a| > 0 && |b| > 0 && a[0] == b[0] {
      LexLessTotal(a[1..], b[1..]);
      if a[1..] == b[1..] {
        assert a == [a[0]] + a[1..] && b == [b[0]] + b[1..];
      }
    }
  }

  predicate StrictlySorted(s: seq<string>)
  {
    forall i, j :: 0 <= i < j < |s| ==> LexLess(s[i], s[j])
  }

  /** Insert v into a strictly sorted list unless it is already there. */
  function Insert(s: seq<string>, v: string): (r: seq<string>)
    requires StrictlySorted(s)
    ensures StrictlySorted(r)
    ensures forall x :: x in r <==> x in s || x == v
    decreases |s|
  {
    if |s| == 0 then [v]
    else if s[0] == v then s
    else if LexLess(v, s[0]) then
      assert forall j :: 0 < j < |s| ==> LexLess(v, s[j]) by {
        forall j | 0 < j < |s| ensures LexLess(v, s[j]) {
          LexLessTransitive(v, s[0], s[j]);
        }
      }
      [v] + s
    else
      var rest := Insert(s[1..], v);
      LexLessTotal(v, s[0]);
      assert forall x :: x in rest ==> LexLess(s[0], x);
      [s[0]] + rest
  }

  /**
   * The element list built from the trait values (the distinct values, then
   * sorted): strictly sorted, and holding exactly the values that occur.
   */
  method SortedDistinct(values: seq<string>) returns (r: seq<string>)
    ensures StrictlySorted(r)
    ensures forall x :: x in r <==> x in values
  {
    r := [];
    var i := 0;
    while i < |values|
      invariant 0 <= i <= |values|
      invariant StrictlySorted(r)
      invariant forall x :: x in r <==> x in values[..i]
    {
      r := Insert(r, values[i]);
      assert values[..i + 1] == values[..i] + [values[i]];
      i := i + 1;
    }
    assert values[..i] == values;
  }

  /** Two strictly sorted lists with the same members are the same list, so the
    * element list is determined by the set of trait values alone. */
  lemma {:induction false} SortedUnique(s: seq<string>, t: seq<string>)
    requires StrictlySorted(s) && StrictlySorted(t)
    requires forall x :: x in s <==> x in t
    ensures s == t
    decreases |s|
  {
    if |s| > 0 {
      assert s[0] in t;
    }
    if |t| > 0 {
      assert t[0] in s;
    }
    if |s| > 0 {
      var j :| 0 <= j < |t| && t[j] == s[0];
      var i :| 0 <= i < |s| && s[i] == t[0];
      if i > 0 && j > 0 {
        LexLessIrreflexive(t[0]);
        LexLessTransitive(t[0], s[0], t[0]);
      }
      assert s[0] == t[0];
      forall x ensures x in s[1..] <==> x in t[1..] {
        if x in s[1..] {
          var j :| 1 <= j < |s| && s[j] == x;
          assert LexLess(s[0], x);
          LexLessIrreflexive(x);
          assert x in t && x != t[0];
          var k :| 0 <= k < |t| && t[k] == x;
          assert t[1..][k - 1] == x;
        }
        if x in t[1..] {
          var j :| 1 <= j < |t| && t[j] == x;
          assert LexLess(t[0], x);
          LexLessIrreflexive(x);
          assert x in s && x != s[0];
          var k :| 0 <= k < |s| && s[k] == x;
          assert s[1..][k - 1] == x;
        }
      }
      SortedUnique(s[1..], t[1..]);
      assert s == [s[0]] + s[1..] && t == [t[0]] + t[1..];
    }
  }

  /** getTypeFromString: the index of the name in the list, -1 when absent. */
  function TypeFromString(list: seq<string>, name: string): (r: int)
    ensures -1 <= r < |list|
    ensures r == -1 <==> name !in list
    ensures r >= 0 ==> list[r] == name && forall k :: 0 <= k < r ==> list[k] != name
  {
    if |list| == 0 then -1
    else if list[0] == name then 0
    else
      var k := TypeFromString(list[1..], name);
      if k == -1 then -1 else k + 1
  }

  /** getTypeString: the name at an index; an index outside the list throws. */
  function TypeString(list: seq<string>, index: int): (r: Result<string>)
    ensures r.Ok? <==> 0 <= index < |list|
    ensures r.Ok? ==> r.value in list
  {
    if 0 <= index < |list| then Ok(list[index]) else Err("IndexOutOfBoundsException")
  }

  /** Name -> index -> name returns the name whenever it is an element. */
  lemma NameRoundTrip(list: seq<string>, name: string)
    requires name in list
    ensures TypeString(list, TypeFromString(list, name)) == Ok(name)
  {
  }

  /** Index -> name -> index returns the index, because the list has no repeats. */
  lemma IndexRoundTrip(list: seq<string>, index: int)
    requires StrictlySorted(list) && 0 <= index < |list|
    ensures TypeFromString(list, list[index]) == index
  {
    var r := TypeFromString(list, list[index]);
    if r < index {
      LexLessIrreflexive(list[index]);
    }
  }
}
