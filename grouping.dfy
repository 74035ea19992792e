/** Grouping of portfolio ids by the part before their first hyphen (portfolio.py, lines
    40-45): the sidebar first offers the group keys, then the ids of the chosen group. */
module Grouping {
  import opened Sequences

  /** The group key of a portfolio id: `id.split('-')[0]`, the longest hyphen-free prefix of
      the id, which is the whole id when it has no hyphen. */
  function Prefix(id: string): (key: string)
    ensures key <= id
    ensures '-' !in key
    ensures |key| < |id| ==> id[|key|] == '-'
    ensures '-' !in id ==> key == id
  {
    if id == [] || id[0] == '-' then [] else [id[0]] + Prefix(id[1..])
  }

  /** The group key of every id, position by position. */
  function Prefixes(ids: seq<string>): seq<string> {
    seq(|ids|, i requires 0 <= i < |ids| => Prefix(ids[i]))
  }

  /** The mask "this id belongs to group `key`". */
  function HasPrefix(key: string): string -> bool {
    id => Prefix(id) == key
  }

  /** The ids of group `key`, in input order. */
  function WithPrefix(ids: seq<string>, key: string): seq<string> {
    Where(ids, HasPrefix(key))
  }

  /** An insertion-ordered dictionary of lists: `keys` is the dictionary's key order. */
  datatype Groups = Groups(keys: seq<string>, members: map<string, seq<string>>)

  /** The ids of each group, keyed by the group key. */
  function GroupMap(ids: seq<string>): map<string, seq<string>> {
    map key | key in Prefixes(ids) :: WithPrefix(ids, key)
  }

  /** The grouping the source builds, defined without its loop: the keys are the ids'
      prefixes in first-seen order, and each key maps to the ids with that prefix. */
  function Grouped(ids: seq<string>): Groups {
    Groups(Unique(Prefixes(ids)), GroupMap(ids))
  }

  /** The dictionary's shape: one entry per key, no key repeated, no empty list, and every
      listed id carries its group's key, which is a hyphen-free prefix of it. */
  ghost predicate WellFormed(g: Groups) {
    && Distinct(g.keys)
    && (forall key :: key in g.keys <==> key in g.members)
    && forall key :: key in g.members ==>
         && g.members[key] != []
         && '-' !in key
         && forall id :: id in g.members[key] ==> Prefix(id) == key && key <= id
  }

  /** The members of all groups, group after group in key order. */
  function Flatten(keys: seq<string>, members: map<string, seq<string>>): seq<string>
    requires forall key :: key in keys ==> key in members
  {
    if keys == [] then []
    else Flatten(keys[..|keys| - 1], members) + members[keys[|keys| - 1]]
  }

  /** `members` is the dictionary of `ids`, stated key by key: its keys are the ids' prefixes
      and each key lists the ids that carry it. */
  ghost predicate Describes(ids: seq<string>, members: map<string, seq<string>>) {
    && (forall key :: key in members <==> key in Prefixes(ids))
    && (forall key :: key in members ==> members[key] == WithPrefix(ids, key))
  }

  /** The group loop of portfolio.py, lines 40-45: for each id, create its group on first
      sight of the key and append the id to it. */
  method GroupByPrefix(ids: seq<string>) returns (g: Groups)
    ensures g == Grouped(ids)
  {
    var keys: seq<string> := [];
    var members: map<string, seq<string>> := map[];
    for i := 0 to |ids|
      invariant keys == Unique(Prefixes(ids[..i]))
      invariant Describes(ids[..i], members)
    {
      var id := ids[i];
      var prefix := Prefix(id);
      ghost var keysBefore, before := keys, members;
      if prefix !in members {
        keys := keys + [prefix];
        members := members[prefix := []];
      }
      LoopStep(ids, i, keysBefore, before, members);
      members := members[prefix := members[prefix] + [id]];
    }
    LoopDone(ids, keys, members);
    g := Groups(keys, members);
  }

  lemma PrefixesSnoc(ids: seq<string>, id: string)
    ensures Prefixes(ids + [id]) == Prefixes(ids) + [Prefix(id)]
  {
  }

  lemma PrefixOfMember(ids: seq<string>, id: string)
    requires id in ids
    ensures Prefix(id) in Prefixes(ids)
  {
    var i :| 0 <= i < |ids| && ids[i] == id;
    assert Prefixes(ids)[i] == Prefix(id);
  }

  /** One more id adds its key to the key order on first sight only. */
  lemma KeysSnoc(ids: seq<string>, id: string)
    ensures Unique(Prefixes(ids + [id])) ==
      if Prefix(id) in Prefixes(ids) then Unique(Prefixes(ids))
      else Unique(Prefixes(ids)) + [Prefix(id)]
  {
    PrefixesSnoc(ids, id);
    UniqueSnoc(Prefixes(ids), Prefix(id));
  }

  /** A key that no id carries has no members. */
  lemma WithPrefixAbsent(ids: seq<string>, key: string)
    requires key !in Prefixes(ids)
    ensures WithPrefix(ids, key) == []
  {
    forall id | id in ids ensures !HasPrefix(key)(id) {
      PrefixOfMember(ids, id);
    }
  }

  /** The list of one group after one more id: the id is appended iff it carries the key. */
  lemma WithPrefixSnoc(ids: seq<string>, id: string, key: string)
    ensures WithPrefix(ids + [id], key) ==
      if Prefix(id) == key then WithPrefix(ids, key) + [id] else WithPrefix(ids, key)
  {
    WhereSnoc(ids, id, HasPrefix(key));
  }

  /** One turn of the loop: with the id's key ready (as an empty list) if it was new,
      appending the id to that key's list gives the dictionary of one more id. */
  lemma Step(ids: seq<string>, id: string, before: map<string, seq<string>>,
             ready: map<string, seq<string>>)
    requires Describes(ids, before)
    requires ready == if Prefix(id) in before then before else before[Prefix(id) := []]
    ensures Describes(ids + [id], ready[Prefix(id) := ready[Prefix(id)] + [id]])
  {
    var p := Prefix(id);
    var after := ready[p := ready[p] + [id]];
    PrefixesSnoc(ids, id);
    assert forall key :: key in after <==> key in Prefixes(ids + [id]);
    forall key | key in after ensures after[key] == WithPrefix(ids + [id], key) {
      WithPrefixSnoc(ids, id, key);
      if key == p && p !in before {
        WithPrefixAbsent(ids, p);
      }
    }
  }

  /** The loop's invariant carried from the first `i` ids to the first `i + 1`. */
  lemma LoopStep(ids: seq<string>, i: nat, keys: seq<string>, before: map<string, seq<string>>,
                 ready: map<string, seq<string>>)
    requires i < |ids|
    requires keys == Unique(Prefixes(ids[..i])) && Describes(ids[..i], before)
    requires ready == if Prefix(ids[i]) in before then before else before[Prefix(ids[i]) := []]
    ensures (if Prefix(ids[i]) in before then keys else keys + [Prefix(ids[i])]) ==
            Unique(Prefixes(ids[..i + 1]))
    ensures Describes(ids[..i + 1], ready[Prefix(ids[i]) := ready[Prefix(ids[i])] + [ids[i]]])
  {
    assert ids[..i + 1] == ids[..i] + [ids[i]];
    KeysSnoc(ids[..i], ids[i]);
    Step(ids[..i], ids[i], before, ready);
  }

  /** After the last id, the loop's state is the grouping. */
  lemma LoopDone(ids: seq<string>, keys: seq<string>, members: map<string, seq<string>>)
    requires keys == Unique(Prefixes(ids[..|ids|])) && Describes(ids[..|ids|], members)
    ensures Groups(keys, members) == Grouped(ids)
  {
    assert ids[..|ids|] == ids;
  }

  /** The grouping has the dictionary's shape. */
  lemma {:induction false} GroupedWellFormed(ids: seq<string>)
    ensures WellFormed(Grouped(ids))
  {
    var g := Grouped(ids);
    forall key | key in g.members
      ensures g.members[key] != [] && '-' !in key
    {
      var i :| 0 <= i < |ids| && Prefixes(ids)[i] == key;
      assert ids[i] in ids;
    }
  }

  /** Every id of the input is in the group of its own prefix and in no other group; every
      listed id comes from the input. */
  lemma EachIdInItsOwnGroup(ids: seq<string>, id: string)
    ensures var g := Grouped(ids);
      && (id in ids <==> Prefix(id) in g.members && id in g.members[Prefix(id)])
      && forall key :: key in g.members && id in g.members[key] ==> key == Prefix(id)
  {
    if id in ids {
      PrefixOfMember(ids, id);
    }
  }

  /** Group keys follow the order in which their first ids appear, and each group lists its
      ids in input order. */
  lemma GroupOrder(ids: seq<string>)
    ensures forall i, j :: 0 <= i < j < |Grouped(ids).keys| ==>
              FirstIndex(Prefixes(ids), Grouped(ids).keys[i]) <
              FirstIndex(Prefixes(ids), Grouped(ids).keys[j])
    ensures forall key :: key in Grouped(ids).members ==>
              IsSubsequence(Grouped(ids).members[key], ids)
  {
    UniqueFirstSeenOrder(Prefixes(ids));
    forall key | key in GroupMap(ids) ensures IsSubsequence(GroupMap(ids)[key], ids) {
      WhereIsSubsequence(ids, HasPrefix(key));
    }
  }

  /** Flattening the groups of distinct keys counts each id once per occurrence in the
      input when its key is among them, and not at all otherwise. */
  lemma {:induction false} FlattenCounts(ids: seq<string>, keys: seq<string>)
    requires Distinct(keys)
    requires forall key :: key in keys ==> key in Grouped(ids).members
    ensures forall id :: multiset(Flatten(keys, Grouped(ids).members))[id] ==
                         if Prefix(id) in keys then multiset(ids)[id] else 0
  {
    if keys != [] {
      var m := Grouped(ids).members;
      var init, last := keys[..|keys| - 1], keys[|keys| - 1];
      assert Distinct(init);
      FlattenCounts(ids, init);
      assert last !in init;
      forall id ensures multiset(Flatten(keys, m))[id] ==
        if Prefix(id) in keys then multiset(ids)[id] else 0
      {
        assert Prefix(id) in keys <==> Prefix(id) in init || Prefix(id) == last;
        assert multiset(m[last])[id] == if HasPrefix(last)(id) then multiset(ids)[id] else 0;
      }
    }
  }

  /** Concatenating the groups in key order gives back the input ids, reordered only. */
  lemma GroupsArePermutation(ids: seq<string>)
    ensures var g := Grouped(ids);
      && (forall key :: key in g.keys ==> key in g.members)
      && multiset(Flatten(g.keys, g.members)) == multiset(ids)
      && |Flatten(g.keys, g.members)| == |ids|
  {
    var g := Grouped(ids);
    GroupedWellFormed(ids);
    FlattenCounts(ids, g.keys);
    forall id ensures multiset(Flatten(g.keys, g.members))[id] == multiset(ids)[id] {
      if id in ids {
        PrefixOfMember(ids, id);
      }
    }
    assert multiset(Flatten(g.keys, g.members)) == multiset(ids);
    assert |multiset(Flatten(g.keys, g.members))| == |Flatten(g.keys, g.members)|;
  }

  /** A single id forms one group, keyed by its prefix. */
  lemma OneId(id: string)
    ensures Grouped([id]) == Groups([Prefix(id)], map[Prefix(id) := [id]])
  {
    var p, none: map<string, seq<string>> := Prefix(id), map[];
    assert [id] == [] + [id] && [id][..|[id]|] == [id];
    assert Describes([], none);
    Step([], id, none, none[p := []]);
    assert none[p := []][p := [] + [id]] == map[p := [id]];
    UniqueSnoc([], p);
    LoopDone([id], [p], map[p := [id]]);
  }

  /** `split('-')[0]` of a hyphen-free part, a hyphen and anything after it is that part. */
  lemma {:induction false} PrefixOfJoined(head: string, tail: string)
    requires '-' !in head
    ensures Prefix(head + "-" + tail) == head
  {
    if head != [] {
      assert (head + "-" + tail)[1..] == head[1..] + "-" + tail;
      PrefixOfJoined(head[1..], tail);
    } else {
      assert (head + "-" + tail)[0] == '-';
    }
  }

  /** A typical id and one whose key is empty because it starts with a hyphen. */
  lemma PrefixExamples()
    ensures Prefix("ACME-01") == "ACME"
    ensures Prefix("-7") == ""
  {
    assert "ACME-01" == "ACME" + "-" + "01";
    PrefixOfJoined("ACME", "01");
    assert "-7" == "" + "-" + "7";
    PrefixOfJoined("", "7");
  }
}
