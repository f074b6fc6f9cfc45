/**
 The room roster a logon reply carries: the member count followed by one
 encoded user record per member, in ascending user-id order (the iteration
 order of the room's std::set of ids). The byte framing of the message is
 abstracted to the count and the sequence of records.
 */
module Roster {
  import opened Types

  /** `ids` holds exactly the ids of `s`, each once, in ascending order. */
  predicate AscendingOf(ids: seq<u64>, s: set<u64>)
  {
    && (forall i, j :: 0 <= i < j < |ids| ==> ids[i] < ids[j])
    && (forall i :: 0 <= i < |ids| ==> ids[i] in s)
    && (forall x :: x in s ==> x in ids)
  }

  /** The smallest id of a non-empty set. */
  ghost function MinId(s: set<u64>): (m: u64)
    requires s != {}
    ensures m in s
    ensures forall y :: y in s ==> m <= y
  {
    var x :| x in s;
    var rest := s - {x};
    if rest == {} then
      assert s == {x} by { assert s == rest + {x}; }
      x
    else
      var least := MinId(rest);
      assert forall y :: y in s ==> y == x || y in rest;
      if x <= least then x else least
  }

  /** Putting an id below all of `rest` in front enumerates one more id. */
  lemma ConsAscending(m: u64, tail: seq<u64>, rest: set<u64>)
    requires AscendingOf(tail, rest)
    requires forall x :: x in rest ==> m < x
    ensures AscendingOf([m] + tail, rest + {m})
  {
    var ids := [m] + tail;
    forall i, j | 0 <= i < j < |ids|
      ensures ids[i] < ids[j]
    {
      assert ids[j] == tail[j - 1];
      if i > 0 {
        assert ids[i] == tail[i - 1];
      } else {
        assert tail[j - 1] in rest;
      }
    }
    forall i | 0 <= i < |ids|
      ensures ids[i] in rest + {m}
    {
      if i > 0 {
        assert ids[i] == tail[i - 1];
      }
    }
    forall x | x in rest + {m}
      ensures x in ids
    {
      if x != m {
        var j :| 0 <= j < |tail| && tail[j] == x;
        assert ids[j + 1] == x;
      }
    }
  }

  /** The ids of `s` in the order a std::set iterates them: least first. */
  ghost function InOrder(s: set<u64>): (ids: seq<u64>)
    ensures |ids| == |s|
    decreases |s|
  {
    if s == {} then
      []
    else
      var m := MinId(s);
      [m] + InOrder(s - {m})
  }

  /** InOrder(s) enumerates `s` in ascending order, each id once. */
  lemma {:induction false} InOrderAscending(s: set<u64>)
    ensures AscendingOf(InOrder(s), s)
    decreases |s|
  {
    if s != {} {
      var m := MinId(s);
      var rest := s - {m};
      assert s == rest + {m};
      InOrderAscending(rest);
      ConsAscending(m, InOrder(rest), rest);
    }
  }

  /**
   An ascending enumeration starts with the least id of the set, and its
   tail enumerates the rest.
   */
  lemma AscendingHeadTail(ids: seq<u64>, s: set<u64>)
    requires AscendingOf(ids, s)
    requires ids != []
    ensures ids[0] in s
    ensures forall x :: x in s ==> ids[0] <= x
    ensures AscendingOf(ids[1..], s - {ids[0]})
  {
    var h := ids[0];
    var t := ids[1..];
    forall x | x in s
      ensures h <= x
    {
      var j :| 0 <= j < |ids| && ids[j] == x;
      if j > 0 {
        assert ids[0] < ids[j];
      }
    }
    forall x | x in s - {h}
      ensures x in t
    {
      var j :| 0 <= j < |ids| && ids[j] == x;
      assert t[j - 1] == x;
    }
    forall i | 0 <= i < |t|
      ensures t[i] in s - {h}
    {
      assert t[i] == ids[i + 1];
      assert ids[0] < ids[i + 1];
    }
    forall i, j | 0 <= i < j < |t|
      ensures t[i] < t[j]
    {
      assert t[i] == ids[i + 1] && t[j] == ids[j + 1];
    }
  }

  /**
   Enumerating a set in ascending order leaves no choice: any ascending
   enumeration of `s` is InOrder(s).
   */
  lemma {:induction false} InOrderIsUnique(ids: seq<u64>, s: set<u64>)
    requires AscendingOf(ids, s)
    ensures ids == InOrder(s)
    decreases |ids|
  {
    if ids == [] {
      assert forall x :: x !in s;
      assert s == {};
    } else {
      var h, t := ids[0], ids[1..];
      assert ids == [h] + t;
      AscendingHeadTail(ids, s);
      InOrderStep(s, h);
      InOrderIsUnique(t, s - {h});
    }
  }

  /** A set's ascending enumeration starts with its least id. */
  lemma InOrderStep(s: set<u64>, m: u64)
    requires m in s
    requires forall x :: x in s ==> m <= x
    ensures InOrder(s) == [m] + InOrder(s - {m})
  {
    assert MinId(s) == m;
  }

  /**
   Loop state of the roster walk: `records` encodes the ids `ids` taken so
   far, and those ids followed by the remaining ones in order make up the
   room's whole enumeration.
   */
  ghost predicate Walked(k: Keeper, users: set<u64>, remaining: set<u64>, ids: seq<u64>, records: seq<UserRecord>)
  {
    && remaining <= users
    && InOrder(users) == ids + InOrder(remaining)
    && |records| == |ids|
    && forall i :: 0 <= i < |ids| ==> ids[i] in k.idUser && records[i] == k.idUser[ids[i]].Encode()
  }

  /** Taking the least remaining id and appending its record keeps the walk. */
  lemma WalkStep(k: Keeper, users: set<u64>, remaining: set<u64>, ids: seq<u64>, records: seq<UserRecord>, m: u64)
    requires Walked(k, users, remaining, ids, records)
    requires m in remaining && m in k.idUser
    requires forall x :: x in remaining ==> m <= x
    ensures Walked(k, users, remaining - {m}, ids + [m], records + [k.idUser[m].Encode()])
  {
    InOrderStep(remaining, m);
    var rec := k.idUser[m].Encode();
    assert forall i :: 0 <= i < |ids| ==> (records + [rec])[i] == records[i];
    assert ids + [m] + InOrder(remaining - {m}) == ids + ([m] + InOrder(remaining - {m}));
  }

  /**
   Writes the roster of room `roomId`: the member count as a uint32_t, then
   the record of every member in ascending id order. The room must exist and
   every member must be registered (the two fatal asserts of the source).
   The order is InOrder's: InOrderAscending shows it lists every member once,
   in strictly ascending id order.
   */
  method GetRoomUserListMsg(k: Keeper, roomId: u32) returns (count: u32, records: seq<UserRecord>)
    requires roomId in k.idRoom
    requires forall u :: u in k.idRoom[roomId].users ==> u in k.idUser
    ensures count as int == |k.idRoom[roomId].users| % 0x1_0000_0000
    ensures |records| == |k.idRoom[roomId].users|
    ensures forall i :: 0 <= i < |records| ==>
      && InOrder(k.idRoom[roomId].users)[i] in k.idUser
      && records[i] == k.idUser[InOrder(k.idRoom[roomId].users)[i]].Encode()
  {
    var users := k.idRoom[roomId].users;
    count := (|users| % 0x1_0000_0000) as u32;
    records := [];
    ghost var ids: seq<u64> := [];
    var remaining := users;
    while remaining != {}
      invariant Walked(k, users, remaining, ids, records)
      decreases |remaining|
    {
      // Never read: it witnesses that the least id picked next exists.
      ghost var least := MinId(remaining);
      var m :| m in remaining && forall x :: x in remaining ==> m <= x;
      WalkStep(k, users, remaining, ids, records, m);
      records := records + [k.idUser[m].Encode()];
      ids := ids + [m];
      remaining := remaining - {m};
    }
    assert ids == InOrder(users);
  }
}
