/**
 * Vertical stacking of simultaneous notices (CalculateStackIndex and the
 * clamp in OnGUI). Every loader that shows a notice parents a token object
 * under its own mod object; a loader's slot is the position of its own name
 * among the sorted names of the mod objects that carry a token.
 */
module Stacking {
  import opened Wrappers

  /** A child of the ModManager object: a mod's object name and whether a token hangs under it. */
  datatype Child = Child(name: string, hasToken: bool)

  /** Ordinal lexicographic order on names: a sorts strictly before b. */
  predicate Below(a: string, b: string)
  {
    if |a| == 0 then |b| > 0
    else if |b| == 0 then false
    else a[0] < b[0] || (a[0] == b[0] && Below(a[1..], b[1..]))
  }

  lemma {:induction false} BelowIrreflexive(a: string)
    ensures !Below(a, a)
  {
    if |a| > 0 { BelowIrreflexive(a[1..]); }
  }

  lemma {:induction false} BelowTransitive(a: string, b: string, c: string)
    requires Below(a, b) && Below(b, c)
    ensures Below(a, c)
  {
    if |a| > 0 && |b| > 0 && |c| > 0 && a[0] == b[0] == c[0] {
      BelowTransitive(a[1..], b[1..], c[1..]);
    }
  }

  lemma {:induction false} BelowTotal(a: string, b: string)
    requires a != b
    ensures Below(a, b) || Below(b, a)
  {
    if |a| > 0 && |b| > 0 && a[0] == b[0] {
      assert a == [a[0]] + a[1..] && b == [b[0]] + b[1..];
      BelowTotal(a[1..], b[1..]);
    }
  }

  lemma BelowAsymmetric(a: string, b: string)
    requires Below(a, b)
    ensures !Below(b, a)
  {
    if Below(b, a) {
      BelowTransitive(a, b, a);
      BelowIrreflexive(a);
    }
  }

  /** Ascending: no later name sorts before an earlier one. */
  predicate Sorted(s: seq<string>)
  {
    forall i, j :: 0 <= i < j < |s| ==> !Below(s[j], s[i])
  }

  /** Puts x in front of the first name that does not sort before it. */
  function Insert(x: string, s: seq<string>): seq<string>
  {
    if s == [] then [x]
    else if Below(s[0], x) then [s[0]] + Insert(x, s[1..])
    else [x] + s
  }

  /** List<string>.Sort, as an insertion sort. */
  function SortNames(s: seq<string>): seq<string>
  {
    if s == [] then [] else Insert(s[|s| - 1], SortNames(s[..|s| - 1]))
  }

  lemma SortedCons(h: string, t: seq<string>)
    requires Sorted(t)
    requires forall k :: 0 <= k < |t| ==> !Below(t[k], h)
    ensures Sorted([h] + t)
  {
    var r := [h] + t;
    forall i, j | 0 <= i < j < |r| ensures !Below(r[j], r[i]) {
      assert r[j] == t[j - 1];
      if i > 0 { assert r[i] == t[i - 1]; }
    }
  }

  lemma {:induction false} InsertPermutes(x: string, s: seq<string>)
    ensures multiset(Insert(x, s)) == multiset(s) + multiset{x}
  {
    if s != [] {
      assert s == [s[0]] + s[1..];
      if Below(s[0], x) { InsertPermutes(x, s[1..]); }
    }
  }

  lemma {:induction false} InsertSorted(x: string, s: seq<string>)
    requires Sorted(s)
    ensures Sorted(Insert(x, s))
  {
    if s == [] {
    } else if Below(s[0], x) {
      var rest := Insert(x, s[1..]);
      InsertSorted(x, s[1..]);
      InsertPermutes(x, s[1..]);
      forall k | 0 <= k < |rest| ensures !Below(rest[k], s[0]) {
        assert rest[k] in multiset(rest);
        if rest[k] == x {
          BelowAsymmetric(s[0], x);
        } else {
          assert rest[k] in multiset(s[1..]);
          var j :| 0 <= j < |s[1..]| && s[1..][j] == rest[k];
          assert s[j + 1] == rest[k];
        }
      }
      SortedCons(s[0], rest);
    } else {
      forall k | 0 <= k < |s| ensures !Below(s[k], x) {
        if Below(s[k], x) && k > 0 {
          if s[k] != s[0] {
            BelowTotal(s[0], s[k]);
            BelowTransitive(s[0], s[k], x);
          }
        }
      }
      SortedCons(x, s);
    }
  }

  /** The sort yields an ascending permutation of its input. */
  lemma {:induction false} SortNamesSortsAndPermutes(s: seq<string>)
    ensures Sorted(SortNames(s)) && multiset(SortNames(s)) == multiset(s)
  {
    if s != [] {
      var init := s[..|s| - 1];
      SortNamesSortsAndPermutes(init);
      InsertSorted(s[|s| - 1], SortNames(init));
      InsertPermutes(s[|s| - 1], SortNames(init));
      assert s == init + [s[|s| - 1]];
    }
  }

  /** List<string>.IndexOf: the first position of x, or -1. */
  function IndexOf(s: seq<string>, x: string): (r: int)
    ensures -1 <= r < |s|
    ensures r == -1 <==> x !in s
    ensures r >= 0 ==> s[r] == x && forall j :: 0 <= j < r ==> s[j] != x
  {
    if s == [] then -1
    else if s[0] == x then 0
    else
      var k := IndexOf(s[1..], x);
      if k == -1 then -1 else k + 1
  }

  /** How many names in s sort strictly before x. */
  function CountBelow(s: seq<string>, x: string): nat
  {
    if s == [] then 0 else (if Below(s[0], x) then 1 else 0) + CountBelow(s[1..], x)
  }

  /** In an ascending list, the first position of a name is the number of names before it in the order. */
  lemma {:induction false} SortedIndexIsRank(s: seq<string>, x: string)
    requires Sorted(s) && x in s
    ensures IndexOf(s, x) == CountBelow(s, x)
  {
    if s[0] == x {
      NoneBelowFirst(s, x);
    } else {
      assert x in s[1..];
      assert s[0] != x && !Below(x, s[0]) by {
        var j :| 0 <= j < |s| && s[j] == x;
      }
      BelowTotal(s[0], x);
      SortedIndexIsRank(s[1..], x);
    }
  }

  lemma {:induction false} NoneBelowFirst(s: seq<string>, x: string)
    requires Sorted(s) && s != [] && s[0] == x
    ensures CountBelow(s, x) == 0
  {
    BelowIrreflexive(x);
    if |s| > 1 {
      assert !Below(s[1], x);
      if s[1] == x {
        NoneBelowFirst(s[1..], x);
      } else {
        BelowTotal(s[1], x);
        NoneBelowHead(s[1..], x);
      }
    }
  }

  lemma {:induction false} NoneBelowHead(s: seq<string>, x: string)
    requires Sorted(s) && s != [] && Below(x, s[0])
    ensures CountBelow(s, x) == 0
  {
    BelowAsymmetric(x, s[0]);
    if |s| > 1 {
      if s[1] == s[0] {
      } else {
        BelowTotal(s[0], s[1]);
        BelowTransitive(x, s[0], s[1]);
      }
      NoneBelowHead(s[1..], x);
    }
  }

  lemma {:induction false} CountBelowAppend(a: seq<string>, b: seq<string>, x: string)
    ensures CountBelow(a + b, x) == CountBelow(a, x) + CountBelow(b, x)
  {
    if a != [] {
      assert (a + b)[1..] == a[1..] + b;
      CountBelowAppend(a[1..], b, x);
    } else {
      assert a + b == b;
    }
  }

  lemma {:induction false} CountBelowInsert(y: string, s: seq<string>, x: string)
    ensures CountBelow(Insert(y, s), x) == CountBelow(s, x) + (if Below(y, x) then 1 else 0)
  {
    if s != [] && Below(s[0], y) {
      CountBelowInsert(y, s[1..], x);
    } else if s != [] {
      assert ([y] + s)[1..] == s;
    }
  }

  /** Sorting does not change how many names sort before x. */
  lemma {:induction false} CountBelowSort(s: seq<string>, x: string)
    ensures CountBelow(SortNames(s), x) == CountBelow(s, x)
  {
    if s != [] {
      var init, last := s[..|s| - 1], s[|s| - 1];
      var sortedInit := SortNames(init);
      assert SortNames(s) == Insert(last, sortedInit);
      CountBelowSort(init, x);
      CountBelowInsert(last, sortedInit, x);
      assert s == init + [last];
      CountBelowAppend(init, [last], x);
      assert CountBelow([last], x) == (if Below(last, x) then 1 else 0) by {
        assert [last][1..] == [];
      }
    }
  }

  /** Position in the sorted list: -1 for an absent name, else the number of names before it in the order. */
  lemma RankInSorted(s: seq<string>, x: string)
    ensures x !in s ==> IndexOf(SortNames(s), x) == -1
    ensures x in s ==> IndexOf(SortNames(s), x) == CountBelow(s, x)
  {
    var sorted := SortNames(s);
    SortNamesSortsAndPermutes(s);
    assert x in s <==> x in multiset(sorted);
    if x in s {
      SortedIndexIsRank(sorted, x);
      CountBelowSort(s, x);
    }
  }

  /** The names of the children that carry a token, in child order. */
  function TokenNames(children: seq<Child>): (r: seq<string>)
    ensures forall n :: n in r <==> exists c :: c in children && c.hasToken && c.name == n
  {
    if children == [] then []
    else
      assert children == [children[0]] + children[1..];
      (if children[0].hasToken then [children[0].name] else []) + TokenNames(children[1..])
  }

  /**
   * CalculateStackIndex. `manager` is None when ModManager.Instance is null,
   * else its children. The slot is -1 when this mod carries no token, and
   * otherwise the number of token-carrying siblings whose names sort before
   * this mod's name, so it does not depend on the order of the children.
   */
  function CalculateStackIndex(manager: Option<seq<Child>>, myName: string): (r: int)
    ensures manager.None? ==> r == 0
    ensures manager.Some? && myName !in TokenNames(manager.value) ==> r == -1
    ensures manager.Some? && myName in TokenNames(manager.value) ==> r == CountBelow(TokenNames(manager.value), myName)
  {
    match manager
    case None => 0
    case Some(children) =>
      var tokens := TokenNames(children);
      RankInSorted(tokens, myName);
      IndexOf(SortNames(tokens), myName)
  }

  /** The slot OnGUI draws at: a negative index is drawn at slot 0. */
  function DrawSlot(manager: Option<seq<Child>>, myName: string): (r: nat)
    ensures r == 0 <==> CalculateStackIndex(manager, myName) <= 0
    ensures r > 0 ==> r == CalculateStackIndex(manager, myName)
  {
    var k := CalculateStackIndex(manager, myName);
    if k < 0 then 0 else k
  }

  /** Two token-carrying siblings with different names never share a slot: the one that sorts first is lower. */
  lemma {:induction false} DistinctSlots(children: seq<Child>, a: string, b: string)
    requires a in TokenNames(children) && b in TokenNames(children) && Below(a, b)
    ensures CalculateStackIndex(Some(children), a) < CalculateStackIndex(Some(children), b)
  {
    CountBelowMonotone(TokenNames(children), a, b);
  }

  lemma {:induction false} CountBelowMonotone(s: seq<string>, a: string, b: string)
    requires a in s && Below(a, b)
    ensures CountBelow(s, a) < CountBelow(s, b)
  {
    BelowIrreflexive(a);
    if s[0] == a {
      CountBelowWeakMonotone(s[1..], a, b);
    } else {
      if Below(s[0], a) { BelowTransitive(s[0], a, b); }
      CountBelowMonotone(s[1..], a, b);
    }
  }

  lemma {:induction false} CountBelowWeakMonotone(s: seq<string>, a: string, b: string)
    requires Below(a, b)
    ensures CountBelow(s, a) <= CountBelow(s, b)
  {
    if s != [] {
      if Below(s[0], a) { BelowTransitive(s[0], a, b); }
      CountBelowWeakMonotone(s[1..], a, b);
    }
  }

  /** The slot does not depend on the order in which the manager lists its children. */
  lemma StackIndexIgnoresChildOrder(c1: seq<Child>, c2: seq<Child>, myName: string)
    requires multiset(c1) == multiset(c2)
    ensures CalculateStackIndex(Some(c1), myName) == CalculateStackIndex(Some(c2), myName)
  {
    TokenNamesPermutation(c1, c2);
    var t1, t2 := TokenNames(c1), TokenNames(c2);
    assert myName in t1 <==> myName in multiset(t1);
    assert myName in t2 <==> myName in multiset(t2);
    CountBelowPermutation(t1, t2, myName);
  }

  lemma {:induction false} TokenNamesAppend(a: seq<Child>, b: seq<Child>)
    ensures TokenNames(a + b) == TokenNames(a) + TokenNames(b)
  {
    if a == [] {
      assert a + b == b;
    } else {
      assert (a + b)[0] == a[0];
      assert (a + b)[1..] == a[1..] + b;
      TokenNamesAppend(a[1..], b);
    }
  }

  /** Reordering the children reorders the token names and nothing more. */
  lemma {:induction false} TokenNamesPermutation(c1: seq<Child>, c2: seq<Child>)
    requires multiset(c1) == multiset(c2)
    ensures multiset(TokenNames(c1)) == multiset(TokenNames(c2))
    decreases |c1|
  {
    if c1 == [] {
      assert c2 == [] by { assert |multiset(c2)| == |c2|; }
    } else {
      var c := c1[0];
      assert c in multiset(c2) by { assert c1 == [c] + c1[1..]; }
      var j :| 0 <= j < |c2| && c2[j] == c;
      RemoveAt(c1, 0);
      RemoveAt(c2, j);
      assert c1[..0] + c1[1..] == c1[1..];
      TokenNamesPermutation(c1[1..], c2[..j] + c2[j + 1..]);
      TokenNamesRemove(c2, j);
      TokenNamesRemove(c1, 0);
    }
  }

  lemma RemoveAt<T>(s: seq<T>, j: nat)
    requires j < |s|
    ensures multiset(s[..j] + s[j + 1..]) == multiset(s) - multiset{s[j]}
  {
    assert s == s[..j] + [s[j]] + s[j + 1..];
  }

  lemma TokenNamesRemove(c: seq<Child>, j: nat)
    requires j < |c|
    ensures multiset(TokenNames(c)) == multiset(TokenNames(c[..j] + c[j + 1..])) + multiset(TokenNames([c[j]]))
  {
    var before, after := c[..j], c[j + 1..];
    assert c == before + ([c[j]] + after);
    TokenNamesAppend(before, [c[j]] + after);
    TokenNamesAppend([c[j]], after);
    TokenNamesAppend(before, after);
    var tb, tj, ta := TokenNames(before), TokenNames([c[j]]), TokenNames(after);
    assert TokenNames(c) == tb + (tj + ta);
    assert TokenNames(before + after) == tb + ta;
    assert multiset(tb + (tj + ta)) == multiset(tb) + multiset(tj) + multiset(ta);
  }

  /** How many names sort below a given name depends only on the multiset of names. */
  lemma {:induction false} CountBelowPermutation(s: seq<string>, t: seq<string>, x: string)
    requires multiset(s) == multiset(t)
    ensures CountBelow(s, x) == CountBelow(t, x)
    decreases |s|
  {
    if s == [] {
      assert t == [] by { assert |multiset(t)| == |t|; }
    } else {
      var y := s[0];
      assert y in multiset(t) by { assert s == [y] + s[1..]; }
      var j :| 0 <= j < |t| && t[j] == y;
      RemoveAt(s, 0);
      RemoveAt(t, j);
      assert s[..0] + s[1..] == s[1..];
      CountBelowPermutation(s[1..], t[..j] + t[j + 1..], x);
      CountBelowRemove(t, j, x);
    }
  }

  lemma CountBelowRemove(t: seq<string>, j: nat, x: string)
    requires j < |t|
    ensures CountBelow(t, x) == CountBelow(t[..j] + t[j + 1..], x) + (if Below(t[j], x) then 1 else 0)
  {
    assert t == t[..j] + ([t[j]] + t[j + 1..]);
    assert ([t[j]] + t[j + 1..])[1..] == t[j + 1..];
    CountBelowAppend(t[..j], [t[j]] + t[j + 1..], x);
    CountBelowAppend(t[..j], t[j + 1..], x);
  }

  /** Two loaders "ModA" and "ModB" both showing a notice: ModA takes slot 0 and ModB slot 1. */
  lemma TwoNoticesStack()
    ensures CalculateStackIndex(Some([Child("ModA", true), Child("ModB", true)]), "ModA") == 0
    ensures CalculateStackIndex(Some([Child("ModA", true), Child("ModB", true)]), "ModB") == 1
  {
    var children := [Child("ModA", true), Child("ModB", true)];
    var t := TokenNames(children);
    assert t == ["ModA", "ModB"] by {
      assert children[1..] == [Child("ModB", true)];
      assert children[1..][1..] == [];
    }
    assert "ModA" in t && "ModB" in t;
    var a, b := "ModA", "ModB";
    assert Below(a, b) by {
      assert a[0] == b[0] && a[1..] == "odA" && b[1..] == "odB";
      assert "odA"[0] == "odB"[0] && "odA"[1..] == "dA" && "odB"[1..] == "dB";
      assert "dA"[0] == "dB"[0] && "dA"[1..] == "A" && "dB"[1..] == "B";
      assert "A"[0] < "B"[0];
    }
    BelowIrreflexive(a);
    BelowIrreflexive(b);
    BelowAsymmetric(a, b);
    assert t[1..] == [b] && t[1..][1..] == [];
    assert t[0] == a && t[1..][0] == b;
    assert CountBelow(t[1..][1..], a) == 0 && CountBelow(t[1..][1..], b) == 0;
    assert CountBelow(t[1..], a) == 0 && CountBelow(t[1..], b) == 0;
    assert CountBelow(t, a) == 0;
    assert CountBelow(t, b) == 1;
  }
}
