/** Lists of notes kept newest first, and what insertion by time does to a list and to a part of it. */
module NoteOrder {
  import opened StorageIndex

  predicate NewestFirst(s: Store, list: seq<Id>) {
    forall i, j :: 0 <= i < j < |list| ==> TimeOf(s, list[i]) >= TimeOf(s, list[j])
  }

  /** None of the notes of `among` that come after `n` in the list is as old as `n`. */
  predicate LastOfItsAge(s: Store, n: Id, list: seq<Id>, among: seq<Id>) {
    forall i, j :: 0 <= i < j < |list| && list[i] == n && list[j] in among ==> TimeOf(s, list[j]) != TimeOf(s, n)
  }

  ghost predicate SameTimes(s: Store, s': Store, list: seq<Id>) {
    forall x :: x in list ==> TimeOf(s', x) == TimeOf(s, x)
  }

  // Insertion

  lemma {:induction false} PositionIs(s: Store, n: Id, list: seq<Id>)
    ensures var p := InsertionPosition(s, n, list);
            && (forall i :: 0 <= i < p ==> TimeOf(s, list[i]) >= TimeOf(s, n))
            && (p < |list| ==> TimeOf(s, list[p]) < TimeOf(s, n))
  {
    if list != [] && TimeOf(s, n) <= TimeOf(s, list[0]) {
      PositionIs(s, n, list[1..]);
    }
  }

  /** The position is the only one between notes not older and a strictly older one. */
  lemma PositionAt(s: Store, n: Id, list: seq<Id>, p: nat)
    requires p <= |list| && (p < |list| ==> TimeOf(s, list[p]) < TimeOf(s, n))
    requires forall i :: 0 <= i < p ==> TimeOf(s, list[i]) >= TimeOf(s, n)
    ensures InsertionPosition(s, n, list) == p
  {
    PositionIs(s, n, list);
  }

  lemma PositionInSameTimes(s: Store, s': Store, n: Id, list: seq<Id>)
    requires SameTimes(s, s', list) && TimeOf(s', n) == TimeOf(s, n)
    ensures Inserted(s', n, list) == Inserted(s, n, list)
  {
    PositionIs(s, n, list);
    PositionAt(s', n, list, InsertionPosition(s, n, list));
  }

  lemma InsertedNewestFirst(s: Store, n: Id, list: seq<Id>)
    requires NewestFirst(s, list)
    ensures NewestFirst(s, Inserted(s, n, list))
  {
    hide TimeOf;
    PositionIs(s, n, list);
    var p := InsertionPosition(s, n, list);
    var r := Inserted(s, n, list);
    InsertedIndexes(s, n, list);
    forall i, j | 0 <= i < j < |r| ensures TimeOf(s, r[i]) >= TimeOf(s, r[j]) {
      var x := if i < p then list[i] else if i == p then n else list[i - 1];
      var y := if j < p then list[j] else if j == p then n else list[j - 1];
      assert r[i] == x && r[j] == y;
      if i == p {
        assert j == p + 1 || TimeOf(s, list[p]) >= TimeOf(s, list[j - 1]);
      }
    }
  }

  lemma InsertedIndexes(s: Store, n: Id, list: seq<Id>)
    ensures var p, r := InsertionPosition(s, n, list), Inserted(s, n, list);
            && |r| == |list| + 1
            && forall i :: 0 <= i < |r| ==> r[i] == if i < p then list[i] else if i == p then n else list[i - 1]
  {
  }

  lemma NewestFirstIn(s: Store, s': Store, list: seq<Id>)
    requires NewestFirst(s, list) && SameTimes(s, s', list)
    ensures NewestFirst(s', list)
  {
  }

  // Where a note is

  lemma PositionOf(list: seq<Id>, n: Id) returns (i: nat)
    requires n in list && Distinct(list)
    ensures i < |list| && list[i] == n && n !in list[..i] && n !in list[i + 1..]
    ensures list == list[..i] + [n] + list[i + 1..]
    ensures Removed(list, n) == list[..i] + list[i + 1..]
  {
    i :| i < |list| && list[i] == n;
    hide Removed;
    OnlyThere(list, i);
    RemovedAt(list[..i], n, list[i + 1..]);
  }

  lemma OnlyThere(list: seq<Id>, i: nat)
    requires i < |list| && Distinct(list)
    ensures list[i] !in list[..i] && list[i] !in list[i + 1..]
    ensures list == list[..i] + [list[i]] + list[i + 1..]
  {
  }

  lemma {:induction false} RemovedAt(front: seq<Id>, n: Id, back: seq<Id>)
    requires n !in front
    ensures Removed(front + [n] + back, n) == front + back
  {
    if front == [] {
      assert front + [n] + back == [n] + back && front + back == back;
    } else {
      var x, rest := front[0], front[1..];
      assert front == [x] + rest;
      RemovedAt(rest, n, back);
      RemovedBehind(x, rest + [n] + back, n);
      assert front + [n] + back == [x] + (rest + [n] + back);
      assert front + back == [x] + (rest + back);
    }
  }

  lemma RemovedBehind(x: Id, list: seq<Id>, n: Id)
    requires x != n
    ensures Removed([x] + list, n) == [x] + Removed(list, n)
  {
    assert ([x] + list)[1..] == list;
  }

  lemma RemovedNewestFirst(s: Store, n: Id, list: seq<Id>)
    requires NewestFirst(s, list) && Distinct(list)
    ensures NewestFirst(s, Removed(list, n))
  {
    hide Removed, Distinct, TimeOf;
    if n in list {
      var i := PositionOf(list, n);
      var r := list[..i] + list[i + 1..];
      forall a, b | 0 <= a < b < |r| ensures TimeOf(s, r[a]) >= TimeOf(s, r[b]) {
        assert r[a] == list[if a < i then a else a + 1];
        assert r[b] == list[if b < i then b else b + 1];
      }
    } else {
      RemovedAbsent(list, n);
    }
  }

  lemma RemovedInserted(s: Store, n: Id, list: seq<Id>)
    requires n !in list
    ensures Removed(Inserted(s, n, list), n) == list
  {
    var p := InsertionPosition(s, n, list);
    RemovedAt(list[..p], n, list[p..]);
    assert list == list[..p] + list[p..];
  }

  /** Between notes not older and notes not newer, insertion by time stops at the first strictly older note. */
  lemma InsertedBetweenIff(s: Store, n: Id, front: seq<Id>, back: seq<Id>)
    requires forall x :: x in front ==> TimeOf(s, x) >= TimeOf(s, n)
    requires n !in back
    ensures Inserted(s, n, front + back) == front + [n] + back <==> back == [] || TimeOf(s, back[0]) < TimeOf(s, n)
  {
    var list := front + back;
    if back == [] || TimeOf(s, back[0]) < TimeOf(s, n) {
      PositionAt(s, n, list, |front|);
      assert list[..|front|] == front && list[|front|..] == back;
    } else {
      PositionIs(s, n, list);
      var p := InsertionPosition(s, n, list);
      forall i | 0 <= i <= |front| ensures TimeOf(s, list[i]) >= TimeOf(s, n) {
        assert list[i] == if i < |front| then front[i] else back[0];
      }
      assert p > |front|;
      assert Inserted(s, n, list)[|front|] == list[|front|] == back[0];
      assert (front + [n] + back)[|front|] == n;
    }
  }

  lemma InsertedFirstIff(s: Store, n: Id, list: seq<Id>)
    requires n !in list
    ensures Inserted(s, n, list) == [n] + list <==> list == [] || TimeOf(s, list[0]) < TimeOf(s, n)
  {
    hide Inserted, TimeOf;
    InsertedBetweenIff(s, n, [], list);
    assert [] + list == list && [] + [n] + list == [n] + list;
  }

  lemma NewestFirstAround(s: Store, list: seq<Id>, i: nat)
    requires NewestFirst(s, list) && i < |list|
    ensures forall x :: x in list[..i] ==> TimeOf(s, x) >= TimeOf(s, list[i])
    ensures forall x :: x in list[i + 1..] ==> TimeOf(s, x) <= TimeOf(s, list[i])
    ensures i + 1 < |list| ==> forall x :: x in list[i + 1..] ==> TimeOf(s, x) <= TimeOf(s, list[i + 1])
  {
    forall x | x in list[i + 1..]
      ensures TimeOf(s, x) <= TimeOf(s, list[i])
      ensures i + 1 < |list| ==> TimeOf(s, x) <= TimeOf(s, list[i + 1])
    {
      var j :| i + 1 <= j < |list| && list[j] == x;
    }
  }

  lemma LastOfItsAgeAt(s: Store, n: Id, list: seq<Id>, i: nat, among: seq<Id>)
    requires i < |list| && list[i] == n && Distinct(list)
    ensures LastOfItsAge(s, n, list, among)
        <==> forall x :: x in list[i + 1..] && x in among ==> TimeOf(s, x) != TimeOf(s, n)
  {
    if LastOfItsAge(s, n, list, among) {
      forall x | x in list[i + 1..] && x in among ensures TimeOf(s, x) != TimeOf(s, n) {
        var j :| i + 1 <= j < |list| && list[j] == x;
      }
    } else {
      var a, b :| 0 <= a < b < |list| && list[a] == n && list[b] in among && TimeOf(s, list[b]) == TimeOf(s, n);
      assert a == i && list[b] in list[i + 1..];
    }
  }

  /** The note comes after notes not older and before a strictly older one. */
  predicate StaysInPlace(s: Store, n: Id, list: seq<Id>) {
    forall i :: 0 <= i < |list| && list[i] == n ==>
      (forall x :: x in list[..i] ==> TimeOf(s, x) >= TimeOf(s, n))
          && (i + 1 < |list| ==> TimeOf(s, list[i + 1]) < TimeOf(s, n))
  }

  lemma InsertedInPlaceIff(s: Store, n: Id, front: seq<Id>, back: seq<Id>)
    requires n !in front && n !in back
    ensures Inserted(s, n, front + back) == front + [n] + back
            <==> (&& (forall x :: x in front ==> TimeOf(s, x) >= TimeOf(s, n))
                  && (back == [] || TimeOf(s, back[0]) < TimeOf(s, n)))
  {
    if forall x :: x in front ==> TimeOf(s, x) >= TimeOf(s, n) {
      InsertedBetweenIff(s, n, front, back);
    } else {
      var k :| 0 <= k < |front| && TimeOf(s, front[k]) < TimeOf(s, n);
      var list := front + back;
      PositionIs(s, n, list);
      var p := InsertionPosition(s, n, list);
      assert list[k] == front[k];
      assert p <= k;
      assert Inserted(s, n, list)[p] == n;
      assert (front + [n] + back)[p] == front[p];
    }
  }

  /** In any list, taking a note out and inserting it by time gives the list back exactly when the note is in place. */
  lemma ReinsertedInPlaceIff(s: Store, n: Id, list: seq<Id>)
    requires n in list && Distinct(list)
    ensures Inserted(s, n, Removed(list, n)) == list <==> StaysInPlace(s, n, list)
  {
    hide Removed, Inserted;
    var i := PositionOf(list, n);
    InsertedInPlaceIff(s, n, list[..i], list[i + 1..]);
    assert forall k :: 0 <= k < |list| && list[k] == n ==> k == i;
  }

  /** In a list kept newest first, taking a note out and inserting it by time gives the list back exactly when the
      note comes last of its age. */
  lemma ReinsertedIff(s: Store, n: Id, list: seq<Id>)
    requires n in list && Distinct(list) && NewestFirst(s, list)
    ensures Inserted(s, n, Removed(list, n)) == list <==> LastOfItsAge(s, n, list, list)
  {
    hide Inserted, Removed;
    var i := PositionOf(list, n);
    NewestFirstAround(s, list, i);
    LastOfItsAgeAt(s, n, list, i, list);
    hide Distinct, NewestFirst, LastOfItsAge;
    var front, back := list[..i], list[i + 1..];
    InsertedBetweenIff(s, n, front, back);
    if back != [] {
      assert back[0] == list[i + 1] && back[0] in back;
    }
  }

  // Parts of a list

  lemma ExistingOfLast(list: seq<Id>, x: Id, ids: seq<Id>)
    ensures Existing(list + [x], ids) == if x in ids then Existing(list, ids) + [x] else Existing(list, ids)
  {
    assert (list + [x])[..|list|] == list;
  }

  lemma {:induction false} NoneExisting(list: seq<Id>)
    ensures Existing(list, []) == []
  {
    if list != [] {
      NoneExisting(list[..|list| - 1]);
    }
  }

  lemma {:induction false} ExistingOfTwo(a: seq<Id>, b: seq<Id>, ids: seq<Id>)
    ensures Existing(a + b, ids) == Existing(a, ids) + Existing(b, ids)
  {
    hide Existing;
    if b == [] {
      ExistingOfNone(ids);
      assert a + b == a;
    } else {
      var init, last := b[..|b| - 1], b[|b| - 1];
      ExistingOfTwo(a, init, ids);
      ExistingOfLast(init, last, ids);
      ExistingOfLast(a + init, last, ids);
      assert init + [last] == b;
      Regrouped(a, init, [last]);
      Regrouped(Existing(a, ids), Existing(init, ids), [last]);
    }
  }

  lemma Regrouped(a: seq<Id>, b: seq<Id>, c: seq<Id>)
    ensures a + b + c == a + (b + c)
  {
  }

  lemma ExistingOfNone(ids: seq<Id>)
    ensures Existing([], ids) == []
  {
  }

  lemma {:induction false} AllExisting(list: seq<Id>, ids: seq<Id>)
    requires forall x :: x in list ==> x in ids
    ensures Existing(list, ids) == list
  {
    hide Existing;
    if list == [] {
      ExistingOfNone(ids);
    } else {
      var init, last := list[..|list| - 1], list[|list| - 1];
      assert list == init + [last];
      AllExisting(init, ids);
      ExistingOfLast(init, last, ids);
    }
  }

  lemma ExistingAround(a: seq<Id>, n: Id, b: seq<Id>, ids: seq<Id>)
    ensures Existing(a + [n] + b, ids)
            == if n in ids then Existing(a, ids) + [n] + Existing(b, ids) else Existing(a, ids) + Existing(b, ids)
  {
    hide Existing;
    ExistingOfTwo(a + [n], b, ids);
    ExistingOfLast(a, n, ids);
  }

  lemma {:induction false} ExistingAgrees(list: seq<Id>, ids: seq<Id>, ids': seq<Id>)
    requires forall x :: x in list ==> (x in ids <==> x in ids')
    ensures Existing(list, ids) == Existing(list, ids')
  {
    if list != [] {
      ExistingAgrees(list[..|list| - 1], ids, ids');
    }
  }

  /** The part of a list is as much in order as the list. */
  lemma {:induction false} ExistingNewestFirst(s: Store, list: seq<Id>, ids: seq<Id>)
    requires NewestFirst(s, list)
    ensures NewestFirst(s, Existing(list, ids))
  {
    if list != [] {
      var init := list[..|list| - 1];
      ExistingNewestFirst(s, init, ids);
      forall x | x in init ensures TimeOf(s, x) >= TimeOf(s, list[|list| - 1]) {
        var i :| 0 <= i < |init| && init[i] == x;
        assert list[i] == x;
      }
    }
  }

  lemma RemovedFromPart(list: seq<Id>, n: Id, ids: seq<Id>)
    requires Distinct(list)
    ensures Removed(Existing(list, ids), n) == Existing(Removed(list, n), ids)
  {
    hide Existing, Removed;
    if n in list {
      var i := PositionOf(list, n);
      RemovedFromPartAt(list[..i], n, list[i + 1..], ids);
    } else {
      RemovedAbsent(list, n);
      RemovedAbsent(Existing(list, ids), n);
    }
  }

  lemma RemovedFromPartAt(front: seq<Id>, n: Id, back: seq<Id>, ids: seq<Id>)
    requires n !in front && n !in back
    ensures Removed(Existing(front + [n] + back, ids), n) == Existing(front + back, ids)
  {
    hide Existing, Removed;
    ExistingAround(front, n, back, ids);
    ExistingOfTwo(front, back, ids);
    if n in ids {
      RemovedAt(Existing(front, ids), n, Existing(back, ids));
    } else {
      RemovedAbsent(Existing(front + back, ids), n);
    }
  }

  /** In a list kept newest first, inserting by time and taking a part commute. */
  lemma InsertedInPart(s: Store, n: Id, list: seq<Id>, ids: seq<Id>)
    requires NewestFirst(s, list) && n !in list
    ensures Existing(Inserted(s, n, list), ids) == if n in ids then Inserted(s, n, Existing(list, ids))
        else Existing(list, ids)
  {
    hide Existing, InsertionPosition;
    PositionIs(s, n, list);
    var p := InsertionPosition(s, n, list);
    assert list == list[..p] + list[p..];
    OlderFrom(s, n, list, p);
    InsertedInPartAt(s, list[..p], n, list[p..], ids);
  }

  lemma InsertedInPartAt(s: Store, front: seq<Id>, n: Id, back: seq<Id>, ids: seq<Id>)
    requires forall x :: x in front ==> TimeOf(s, x) >= TimeOf(s, n)
    requires (forall x :: x in back ==> TimeOf(s, x) < TimeOf(s, n)) && n !in back
    ensures Existing(front + [n] + back, ids)
            == if n in ids then Inserted(s, n, Existing(front + back, ids)) else Existing(front + back, ids)
  {
    hide Existing, Inserted, TimeOf;
    ExistingAround(front, n, back, ids);
    ExistingOfTwo(front, back, ids);
    if n in ids {
      InsertedBetweenIff(s, n, Existing(front, ids), Existing(back, ids));
    }
  }

  lemma OlderFrom(s: Store, n: Id, list: seq<Id>, p: nat)
    requires NewestFirst(s, list) && p <= |list| && (p < |list| ==> TimeOf(s, list[p]) < TimeOf(s, n))
    ensures forall x :: x in list[p..] ==> TimeOf(s, x) < TimeOf(s, n)
  {
    forall x | x in list[p..] ensures TimeOf(s, x) < TimeOf(s, n) {
      var j :| p <= j < |list| && list[j] == x;
    }
  }

  /** A note of the list joins the part of the list that `ids` picks: inserting it by time puts it where the list has it
      exactly when it comes last of its age among the notes of the part. */
  lemma InsertedMatchesIff(s: Store, n: Id, list: seq<Id>, ids: seq<Id>, ids': seq<Id>)
    requires NewestFirst(s, list) && Distinct(list) && n in list && n !in ids && n in ids'
    requires forall x :: x in list && x != n ==> (x in ids <==> x in ids')
    ensures Inserted(s, n, Existing(list, ids)) == Existing(list, ids')
        <==> LastOfItsAge(s, n, list, Existing(list, ids))
  {
    hide Existing, Removed, Inserted;
    var i := PositionOf(list, n);
    var front, back := list[..i], list[i + 1..];
    NewestFirstAround(s, list, i);
    LastOfItsAgeAt(s, n, list, i, Existing(list, ids));
    hide Distinct, LastOfItsAge;
    ExistingNewestFirst(s, back, ids);
    PartsAround(front, n, back, ids, ids');
    assert forall x :: x in list <==> x in front || x == n || x in back;
    var back' := Existing(back, ids);
    InsertedBetweenIff(s, n, Existing(front, ids), back');
    if back' != [] {
      FirstIsNewest(s, back');
      assert back'[0] in back';
    }
  }

  lemma FirstIsNewest(s: Store, list: seq<Id>)
    requires NewestFirst(s, list) && list != []
    ensures forall x :: x in list ==> TimeOf(s, x) <= TimeOf(s, list[0])
  {
  }

  lemma PartsAround(front: seq<Id>, n: Id, back: seq<Id>, ids: seq<Id>, ids': seq<Id>)
    requires n !in ids && n in ids'
    requires forall x :: x in front || x in back ==> (x in ids <==> x in ids')
    ensures Existing(front + [n] + back, ids) == Existing(front, ids) + Existing(back, ids)
    ensures Existing(front + [n] + back, ids') == Existing(front, ids) + [n] + Existing(back, ids)
  {
    hide Existing;
    ExistingAround(front, n, back, ids);
    ExistingAround(front, n, back, ids');
    ExistingAgrees(front, ids, ids');
    ExistingAgrees(back, ids, ids');
  }

  lemma ExistingIsDistinct(list: seq<Id>, ids: seq<Id>)
    requires Distinct(list)
    ensures Distinct(Existing(list, ids))
  {
  }

  // Several insertions

  function InsertedAll(s: Store, list: seq<Id>, ns: seq<Id>): seq<Id> {
    if ns == [] then list else Inserted(s, ns[|ns| - 1], InsertedAll(s, list, ns[..|ns| - 1]))
  }

  lemma InsertedElements(s: Store, n: Id, list: seq<Id>)
    ensures forall x :: x in Inserted(s, n, list) <==> x in list || x == n
  {
    var p := InsertionPosition(s, n, list);
    assert list == list[..p] + list[p..];
  }

  lemma {:induction false} InsertedAllElements(s: Store, list: seq<Id>, ns: seq<Id>)
    ensures forall x :: x in InsertedAll(s, list, ns) <==> x in list || x in ns
  {
    hide Inserted;
    if ns != [] {
      var front, n := ns[..|ns| - 1], ns[|ns| - 1];
      assert forall x :: x in ns <==> x in front || x == n;
      InsertedAllElements(s, list, front);
      InsertedElements(s, n, InsertedAll(s, list, front));
    }
  }

  /** Each of `ns` is in the list, and last of its age there among those shown before it joins. */
  predicate AllJoin(s: Store, list: seq<Id>, shown: seq<Id>, ns: seq<Id>) {
    forall k :: 0 <= k < |ns| ==> ns[k] in list && LastOfItsAge(s, ns[k], list, shown + ns[..k])
  }

  lemma AllJoinFront(s: Store, list: seq<Id>, shown: seq<Id>, ns: seq<Id>)
    requires ns != []
    ensures var front, n := ns[..|ns| - 1], ns[|ns| - 1];
            AllJoin(s, list, shown, ns)
            <==> AllJoin(s, list, shown, front) && n in list && LastOfItsAge(s, n, list, shown + front)
  {
    hide LastOfItsAge;
    var front := ns[..|ns| - 1];
    assert forall k :: 0 <= k < |front| ==> front[k] == ns[k] && front[..k] == ns[..k];
  }

  lemma SameAmong(s: Store, n: Id, list: seq<Id>, a: seq<Id>, b: seq<Id>)
    requires forall x :: x in list ==> (x in a <==> x in b)
    ensures LastOfItsAge(s, n, list, a) <==> LastOfItsAge(s, n, list, b)
  {
  }

  /** Without its newcomer, the part of the list is the part it was. */
  lemma PartBefore(list: seq<Id>, ids: seq<Id>, ids': seq<Id>, n: Id)
    requires Distinct(list) && forall x :: x in list ==> (x in ids' <==> x in ids || x == n)
    requires n in list ==> n !in ids
    ensures Removed(Existing(list, ids'), n) == Existing(list, ids)
  {
    hide Existing, Removed, Distinct;
    RemovedFromPart(list, n, ids');
    RemovedFromPart(list, n, ids);
    RemovedAbsent(Existing(list, ids), n);
    RemovedFrom(list, n);
    ExistingAgrees(Removed(list, n), ids, ids');
  }

  lemma LastJoins(s: Store, list: seq<Id>, ids: seq<Id>, front: seq<Id>, n: Id, before: seq<Id>)
    requires NewestFirst(s, list) && Distinct(list) && n !in front && n !in Existing(list, ids)
    requires before == Existing(list, ids + front)
    ensures Inserted(s, n, before) == Existing(list, ids + (front + [n]))
            <==> n in list && LastOfItsAge(s, n, list, Existing(list, ids) + front)
  {
    hide Existing, Inserted, LastOfItsAge, NewestFirst, Distinct;
    if n in list {
      InsertedMatchesIff(s, n, list, ids + front, ids + (front + [n]));
      SameAmong(s, n, list, before, Existing(list, ids) + front);
    } else {
      InsertedElements(s, n, before);
    }
  }

  /** Notes join a part of the list one after the other: the outcome is the part with them exactly when each joins in
      place. */
  lemma {:induction false} InsertedAllMatchesIff(s: Store, list: seq<Id>, ids: seq<Id>, ns: seq<Id>)
    requires NewestFirst(s, list) && Distinct(list) && Distinct(ns) && forall n :: n in ns ==> n !in Existing(list, ids)
    ensures InsertedAll(s, Existing(list, ids), ns) == Existing(list, ids + ns)
            <==> AllJoin(s, list, Existing(list, ids), ns)
  {
    hide Existing, Inserted, LastOfItsAge, NewestFirst, AllJoin;
    if ns == [] {
      assert ids + ns == ids;
      NoneJoin(s, list, Existing(list, ids));
    } else {
      var front, n := ns[..|ns| - 1], ns[|ns| - 1];
      assert ns == front + [n] && n !in front && Distinct(front);
      assert forall x :: x in front ==> x in ns;
      assert n in ns;
      hide Distinct;
      var shown := Existing(list, ids);
      var before := InsertedAll(s, shown, front);
      InsertedAllMatchesIff(s, list, ids, front);
      AllJoinFront(s, list, shown, ns);
      InsertedAllElements(s, shown, front);
      RemovedInserted(s, n, before);
      if n in list {
        PartBefore(list, ids + front, ids + ns, n);
      }
      if before == Existing(list, ids + front) {
        LastJoins(s, list, ids, front, n, before);
      } else {
        InsertedElements(s, n, before);
      }
    }
  }

  lemma NoneJoin(s: Store, list: seq<Id>, shown: seq<Id>)
    ensures AllJoin(s, list, shown, [])
  {
  }
}
