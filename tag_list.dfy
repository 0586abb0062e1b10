/** The hashtag list of a core user: a singly linked list whose nodes the
    C program keeps in strictly ascending `strcmp` order, dropping duplicates. */
module TagLists {
  import opened Lexicographic

  /** Every element sorts strictly before every later one; in particular no
      two elements are equal. */
  predicate StrictlyAscending(s: seq<string>) {
    forall i, j :: 0 <= i < j < |s| ==> Less(s[i], s[j])
  }

  function Elems(s: seq<string>): set<string> {
    set x | x in s
  }

  /** A strictly ascending list is determined by its elements: the list is a
      faithful representation of a set of hashtags. */
  lemma {:induction false} AscendingDeterminedByElems(s: seq<string>, t: seq<string>)
    requires StrictlyAscending(s) && StrictlyAscending(t)
    requires Elems(s) == Elems(t)
    ensures s == t
  {
    if s != [] {
      assert s[0] in Elems(s);
    }
    if t != [] {
      assert t[0] in Elems(t);
    }
    if s != [] && t != [] {
      var i :| 0 <= i < |s| && s[i] == t[0];
      var j :| 0 <= j < |t| && t[j] == s[0];
      if s[0] != t[0] {
        assert 0 < i && 0 < j;
        assert Less(s[0], t[0]) && Less(t[0], s[0]);
        LessTrichotomy(s[0], t[0]);
      }
      forall x | x in s[1..] ensures x != s[0] {
        LessTrichotomy(s[0], s[0]);
      }
      forall x | x in t[1..] ensures x != t[0] {
        LessTrichotomy(t[0], t[0]);
      }
      assert s == [s[0]] + s[1..] && t == [t[0]] + t[1..];
      assert Elems(s) == {s[0]} + Elems(s[1..]);
      assert Elems(t) == {t[0]} + Elems(t[1..]);
      assert Elems(s[1..]) == Elems(t[1..]);
      AscendingDeterminedByElems(s[1..], t[1..]);
    }
  }

  /** The list, from its head node to its foot node. */
  class TagList {
    var items: seq<string>

    ghost predicate Valid()
      reads this
    {
      StrictlyAscending(items)
    }

    /** `make_empty_list`: head and foot both null. */
    constructor ()
      ensures Valid() && items == []
    {
      items := [];
    }

    /** `insert_unique_in_order`: adds `value` unless an equal string is already
        present, keeping the list strictly ascending. */
    method InsertUniqueInOrder(value: string)
      requires Valid()
      modifies this
      ensures Valid()
      ensures Elems(items) == Elems(old(items)) + {value}
      ensures value in old(items) ==> items == old(items)
      ensures old(items) == [] ==> items == [value]
      ensures old(items) != [] && Less(old(items)[|old(items)| - 1], value) ==> items == old(items) + [value]
      ensures old(items) != [] && Less(value, old(items)[0]) ==> items == [value] + old(items)
    {
      if items == [] {
        // first insertion: the new node is both head and foot
        items := [value];
        return;
      }
      if Strcmp(value, items[|items| - 1]) > 0 {
        // larger than the foot: append and move the foot
        AppendAscending(items, value);
        items := items + [value];
        return;
      }
      if Strcmp(value, items[0]) == 0 {
        // equal to the head
        LessTrichotomy(value, value);
        return;
      }
      if Strcmp(value, items[0]) < 0 {
        // smaller than the head: the new node becomes the head
        PrependAscending(items, value);
        items := [value] + items;
        return;
      }

      // walk with `check` one node ahead of `prev`
      var check := 0;
      while check + 1 < |items|
        invariant 0 <= check < |items|
        invariant forall j :: 0 <= j <= check ==> Less(items[j], value)
        invariant items == old(items)
      {
        var prev := check;
        check := check + 1;
        var c := Strcmp(value, items[check]);
        if c == 0 {
          return;
        }
        if c > 0 {
          continue;
        }
        // smaller than `check`: link the new node between `prev` and `check`
        SpliceAscending(items, check, value);
        items := items[..prev + 1] + [value] + items[check..];
        return;
      }
      // the foot was not smaller than `value`, so the walk always stops before here
      assert false;
    }
  }

  /** A client: "zebra", "apple", "apple", "mango" inserted in that order. */
  method InsertionScenario() {
    var list := new TagList();
    list.InsertUniqueInOrder("zebra");
    assert list.items == ["zebra"];
    list.InsertUniqueInOrder("apple");
    assert list.items == ["apple", "zebra"];
    list.InsertUniqueInOrder("apple");
    assert list.items == ["apple", "zebra"];
    list.InsertUniqueInOrder("mango");
    var expected := ["apple", "mango", "zebra"];
    assert Elems(list.items) == Elems(expected);
    AscendingDeterminedByElems(list.items, expected);
    assert list.items == expected;
  }

  lemma AppendAscending(s: seq<string>, v: string)
    requires StrictlyAscending(s) && s != [] && Less(s[|s| - 1], v)
    ensures StrictlyAscending(s + [v]) && v !in s && !Less(v, s[0])
  {
    forall i | 0 <= i < |s| ensures Less(s[i], v) {
      if i < |s| - 1 {
        LessTransitive(s[i], s[|s| - 1], v);
      }
    }
    forall i | 0 <= i < |s| ensures s[i] != v {
      LessTrichotomy(s[i], v);
    }
    LessTrichotomy(s[0], v);
  }

  lemma PrependAscending(s: seq<string>, v: string)
    requires StrictlyAscending(s) && s != [] && Less(v, s[0])
    ensures StrictlyAscending([v] + s) && v !in s
  {
    forall i | 0 <= i < |s| ensures Less(v, s[i]) {
      if 0 < i {
        LessTransitive(v, s[0], s[i]);
      }
    }
    forall i | 0 <= i < |s| ensures s[i] != v {
      LessTrichotomy(s[i], v);
    }
  }

  /** Linking `v` in front of position `k`, when everything before `k` is smaller
      and the element at `k` is larger, keeps the list strictly ascending. */
  lemma SpliceAscending(s: seq<string>, k: nat, v: string)
    requires StrictlyAscending(s) && 0 < k < |s|
    requires forall j :: 0 <= j < k ==> Less(s[j], v)
    requires Less(v, s[k])
    ensures StrictlyAscending(s[..k] + [v] + s[k..]) && v !in s
  {
    var t := s[..k] + [v] + s[k..];
    forall i | k <= i < |s| ensures Less(v, s[i]) {
      if k < i {
        LessTransitive(v, s[k], s[i]);
      }
    }
    forall i | 0 <= i < |s| ensures s[i] != v {
      LessTrichotomy(s[i], v);
    }
    forall i, j | 0 <= i < j < |t| ensures Less(t[i], t[j]) {
      if j < k || i > k {
        assert t[i] == s[if i < k then i else i - 1];
        assert t[j] == s[if j < k then j else j - 1];
      }
    }
  }
}
