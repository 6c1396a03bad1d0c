/** Property names as the document writer compares them: the UTF-8 bytes of the
    name, in lexicographic byte order (a proper prefix sorts first), and the
    sorted, duplicate-free listing of a set of names in that order. */
module PropertyNames {

  type Byte = b: int | 0 <= b < 256

  /** A property name as its UTF-8 bytes. */
  type Name = seq<Byte>

  /** `a` sorts strictly before `b`. */
  predicate Below(a: Name, b: Name)
  {
    if a == [] then b != []
    else if b == [] then false
    else if a[0] != b[0] then a[0] < b[0]
    else Below(a[1..], b[1..])
  }

  lemma {:induction false} BelowIrreflexive(a: Name)
    ensures !Below(a, a)
    decreases |a|
  {
    if a != [] {
      BelowIrreflexive(a[1..]);
    }
  }

  lemma {:induction false} BelowAsymmetric(a: Name, b: Name)
    ensures Below(a, b) ==> !Below(b, a)
    decreases |a|
  {
    if a != [] && b != [] && a[0] == b[0] {
      BelowAsymmetric(a[1..], b[1..]);
    }
  }

  lemma {:induction false} BelowTransitive(a: Name, b: Name, c: Name)
    requires Below(a, b) && Below(b, c)
    ensures Below(a, c)
    decreases |a|
  {
    if a != [] && a[0] == b[0] && b[0] == c[0] {
      BelowTransitive(a[1..], b[1..], c[1..]);
    }
  }

  /** Two different names are always ordered one way or the other. */
  lemma {:induction false} BelowTotal(a: Name, b: Name)
    requires a != b
    ensures Below(a, b) || Below(b, a)
    decreases |a|
  {
    if a != [] && b != [] && a[0] == b[0] {
      assert a == [a[0]] + a[1..] && b == [b[0]] + b[1..];
      BelowTotal(a[1..], b[1..]);
    }
  }

  ghost predicate Distinct(s: seq<Name>)
  {
    forall i, j :: 0 <= i < j < |s| ==> s[i] != s[j]
  }

  ghost predicate StrictlySorted(s: seq<Name>)
  {
    forall i, j :: 0 <= i < j < |s| ==> Below(s[i], s[j])
  }

  /** Inserts `x` into a sorted list before the first name it sorts below. */
  function Insert(x: Name, s: seq<Name>): (r: seq<Name>)
    ensures multiset(r) == multiset(s) + multiset{x}
  {
    if s == [] then [x]
    else if Below(s[0], x) then
      assert s == [s[0]] + s[1..];
      [s[0]] + Insert(x, s[1..])
    else [x] + s
  }

  /** The names of `s` in name order, as a comparison sort leaves them. */
  function SortByName(s: seq<Name>): (r: seq<Name>)
    ensures multiset(r) == multiset(s)
  {
    if s == [] then []
    else
      assert s == [s[0]] + s[1..];
      Insert(s[0], SortByName(s[1..]))
  }

  /** The head of a sorted list sorts below everything its tail becomes once a
      name above that head is inserted into it. */
  lemma HeadBelowInsert(x: Name, s: seq<Name>)
    requires StrictlySorted(s) && s != [] && Below(s[0], x)
    ensures forall k :: 0 <= k < |Insert(x, s[1..])| ==> Below(s[0], Insert(x, s[1..])[k])
  {
    var tail := Insert(x, s[1..]);
    forall k | 0 <= k < |tail|
      ensures Below(s[0], tail[k])
    {
      assert tail[k] in multiset(tail);
      if tail[k] != x {
        assert tail[k] in multiset(s[1..]);
        var m :| 0 <= m < |s[1..]| && s[1..][m] == tail[k];
        assert s[m + 1] == tail[k];
      }
    }
  }

  lemma {:induction false} InsertSorted(x: Name, s: seq<Name>)
    requires StrictlySorted(s) && x !in s
    ensures StrictlySorted(Insert(x, s))
    decreases |s|
  {
    if s == [] {
    } else if Below(s[0], x) {
      var tail := Insert(x, s[1..]);
      InsertSorted(x, s[1..]);
      HeadBelowInsert(x, s);
      var r := [s[0]] + tail;
      forall i, j | 0 <= i < j < |r|
        ensures Below(r[i], r[j])
      {
        if i == 0 {
          assert r[j] == tail[j - 1];
        } else {
          assert r[i] == tail[i - 1] && r[j] == tail[j - 1];
        }
      }
    } else {
      assert x != s[0];
      BelowTotal(x, s[0]);
      var r := [x] + s;
      forall i, j | 0 <= i < j < |r|
        ensures Below(r[i], r[j])
      {
        if i == 0 && j > 1 {
          BelowTransitive(x, s[0], s[j - 1]);
        }
      }
    }
  }

  /** Sorting a duplicate-free list yields it in strict name order. */
  lemma {:induction false} SortByNameSorted(s: seq<Name>)
    requires Distinct(s)
    ensures StrictlySorted(SortByName(s))
    decreases |s|
  {
    if s != [] {
      var rest := SortByName(s[1..]);
      assert Distinct(s[1..]) by {
        forall i, j | 0 <= i < j < |s[1..]|
          ensures s[1..][i] != s[1..][j]
        {
          assert s[1..][i] == s[i + 1] && s[1..][j] == s[j + 1];
        }
      }
      SortByNameSorted(s[1..]);
      assert s[0] !in s[1..] by {
        forall m | 0 <= m < |s[1..]|
          ensures s[1..][m] != s[0]
        {
          assert s[1..][m] == s[m + 1];
        }
      }
      assert s[0] !in multiset(rest);
      InsertSorted(s[0], rest);
    }
  }

  /** There is only one strictly sorted arrangement of a set of names, so the
      order a sort leaves does not depend on the sorting algorithm. */
  lemma {:induction false} SortedArrangementUnique(a: seq<Name>, b: seq<Name>)
    requires StrictlySorted(a) && StrictlySorted(b)
    requires multiset(a) == multiset(b)
    ensures a == b
    decreases |a|
  {
    if a != [] {
      assert |b| == |a| by {
        assert |multiset(b)| == |multiset(a)|;
      }
      assert a[0] in multiset(b);
      assert b[0] in multiset(a);
      if a[0] != b[0] {
        // each first element sorts below the other
        var k :| 0 <= k < |b| && b[k] == a[0];
        var m :| 0 <= m < |a| && a[m] == b[0];
        assert Below(b[0], a[0]) && Below(a[0], b[0]);
        BelowAsymmetric(a[0], b[0]);
        assert false;
      }
      assert a == [a[0]] + a[1..] && b == [b[0]] + b[1..];
      forall y
        ensures multiset(a[1..])[y] == multiset(b[1..])[y]
      {
        assert multiset(a)[y] == multiset{a[0]}[y] + multiset(a[1..])[y];
        assert multiset(b)[y] == multiset{b[0]}[y] + multiset(b[1..])[y];
      }
      assert multiset(a[1..]) == multiset(b[1..]);
      assert StrictlySorted(a[1..]) by {
        forall i, j | 0 <= i < j < |a[1..]|
          ensures Below(a[1..][i], a[1..][j])
        {
          assert a[1..][i] == a[i + 1] && a[1..][j] == a[j + 1];
        }
      }
      assert StrictlySorted(b[1..]) by {
        forall i, j | 0 <= i < j < |b[1..]|
          ensures Below(b[1..][i], b[1..][j])
        {
          assert b[1..][i] == b[i + 1] && b[1..][j] == b[j + 1];
        }
      }
      SortedArrangementUnique(a[1..], b[1..]);
    }
  }
}
