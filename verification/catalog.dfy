/** The changes the manager makes to its reward collection once the backend
    has confirmed a write: append the created record, replace the updated one
    by id, remove the deleted one by id. */
module Catalog {
  import opened Rewards
  import opened Seqs

  /** The ids of the collection, position by position. */
  function Ids(rs: seq<Reward>): (ids: seq<int>)
    ensures |ids| == |rs|
    ensures forall i :: 0 <= i < |rs| ==> ids[i] == rs[i].id
  {
    seq(|rs|, i requires 0 <= i < |rs| => rs[i].id)
  }

  /** No two entries share an id. */
  predicate UniqueIds(rs: seq<Reward>)
  {
    forall i, j :: 0 <= i < j < |rs| ==> rs[i].id != rs[j].id
  }

  /** No unsaved draft (id 0) sits in the collection. */
  predicate NoDrafts(rs: seq<Reward>)
  {
    forall x :: x in rs ==> x.id != 0
  }

  /** How many entries carry `id`. */
  function CountId(rs: seq<Reward>, id: int): (n: nat)
    ensures n <= |rs|
    ensures n == 0 <==> id !in Ids(rs)
  {
    if rs == [] then 0
    else
      assert Ids(rs) == [rs[0].id] + Ids(rs[1..]);
      (if rs[0].id == id then 1 else 0) + CountId(rs[1..], id)
  }

  /** The collection after a confirmed update: every entry whose id is the
      returned record's id becomes that record, and every other entry, the
      length and the order stay as they were. */
  function ReplaceById(rs: seq<Reward>, u: Reward): (r: seq<Reward>)
    ensures |r| == |rs|
    ensures forall i :: 0 <= i < |rs| && rs[i].id == u.id ==> r[i] == u
    ensures forall i :: 0 <= i < |rs| && rs[i].id != u.id ==> r[i] == rs[i]
  {
    if rs == [] then []
    else [if rs[0].id == u.id then u else rs[0]] + ReplaceById(rs[1..], u)
  }

  /** An update never changes which ids the collection holds, or where. */
  lemma ReplaceKeepsIds(rs: seq<Reward>, u: Reward)
    ensures Ids(ReplaceById(rs, u)) == Ids(rs)
  {
  }

  /** Replacing again with the same record changes nothing. */
  lemma ReplaceIdempotent(rs: seq<Reward>, u: Reward)
    ensures ReplaceById(ReplaceById(rs, u), u) == ReplaceById(rs, u)
  {
  }

  /** After an update, the returned record is what the collection holds under
      its id, and if that id was present the record is there. */
  lemma ReplaceInstallsRecord(rs: seq<Reward>, u: Reward)
    ensures forall x :: x in ReplaceById(rs, u) && x.id == u.id ==> x == u
    ensures u.id in Ids(rs) ==> u in ReplaceById(rs, u)
    ensures u.id !in Ids(rs) ==> ReplaceById(rs, u) == rs
  {
    var r := ReplaceById(rs, u);
    if u.id in Ids(rs) {
      var i :| 0 <= i < |rs| && Ids(rs)[i] == u.id;
      assert r[i] == u;
    }
    if u.id !in Ids(rs) {
      assert forall i :: 0 <= i < |rs| ==> rs[i].id != u.id by {
        forall i | 0 <= i < |rs| ensures rs[i].id != u.id {
          assert Ids(rs)[i] == rs[i].id;
        }
      }
    }
  }

  /** The collection after a confirmed delete: the entries whose id differs
      from `id`, in their original order. */
  function RemoveById(rs: seq<Reward>, id: int): (r: seq<Reward>)
    ensures forall x :: x in r ==> x in rs && x.id != id
    ensures IsSubseq(r, rs)
    ensures forall x: Reward :: x.id != id ==> multiset(r)[x] == multiset(rs)[x]
    ensures |r| == |rs| - CountId(rs, id)
  {
    var r := Filter((x: Reward) => x.id != id, rs);
    RemoveCount(rs, id);
    r
  }

  /** The filter behind a delete drops exactly the entries that carry the id. */
  lemma {:induction false} RemoveCount(rs: seq<Reward>, id: int)
    ensures |Filter((x: Reward) => x.id != id, rs)| == |rs| - CountId(rs, id)
    decreases |rs|
  {
    if rs != [] {
      RemoveCount(rs[1..], id);
    }
  }

  /** Deleting an id that the collection does not hold leaves it unchanged. */
  lemma RemoveAbsent(rs: seq<Reward>, id: int)
    requires id !in Ids(rs)
    ensures RemoveById(rs, id) == rs
  {
    assert forall x :: x in rs ==> x.id != id by {
      forall x | x in rs ensures x.id != id {
        var i :| 0 <= i < |rs| && rs[i] == x;
        assert Ids(rs)[i] == x.id;
      }
    }
    FilterKeepsAll((x: Reward) => x.id != id, rs);
  }

  /** Appending a record with a fresh id keeps ids unique and leaves exactly
      one entry carrying the new id. */
  lemma AppendFresh(rs: seq<Reward>, x: Reward)
    requires UniqueIds(rs)
    requires x.id !in Ids(rs)
    ensures UniqueIds(rs + [x])
    ensures CountId(rs + [x], x.id) == 1
  {
    var r := rs + [x];
    forall i, j | 0 <= i < j < |r|
      ensures r[i].id != r[j].id
    {
      if j == |rs| {
        assert Ids(rs)[i] == rs[i].id;
      }
    }
    CountAppend(rs, x, x.id);
  }

  /** Counting over an appended entry adds that entry's contribution. */
  lemma {:induction false} CountAppend(rs: seq<Reward>, x: Reward, id: int)
    ensures CountId(rs + [x], id) == CountId(rs, id) + (if x.id == id then 1 else 0)
    decreases |rs|
  {
    if rs == [] {
      assert [x][1..] == [];
    } else {
      assert (rs + [x])[1..] == rs[1..] + [x];
      CountAppend(rs[1..], x, id);
    }
  }

  /** Ids are unique in a non-empty collection exactly when they are unique in
      its tail and the head's id appears nowhere in the tail. */
  lemma UniqueCons(rs: seq<Reward>)
    requires rs != []
    ensures UniqueIds(rs) <==> UniqueIds(rs[1..]) && forall y :: y in rs[1..] ==> y.id != rs[0].id
  {
    var t := rs[1..];
    if UniqueIds(rs) {
      forall i, j | 0 <= i < j < |t| ensures t[i].id != t[j].id {
        assert t[i] == rs[i + 1] && t[j] == rs[j + 1];
      }
      forall y | y in t ensures y.id != rs[0].id {
        var k :| 0 <= k < |t| && t[k] == y;
        assert rs[k + 1] == y;
      }
    }
    if UniqueIds(t) && forall y :: y in t ==> y.id != rs[0].id {
      forall i, j | 0 <= i < j < |rs| ensures rs[i].id != rs[j].id {
        assert rs[j] == t[j - 1];
        if i > 0 {
          assert rs[i] == t[i - 1];
        }
      }
    }
  }

  /** Removing entries cannot create an id clash or a draft. */
  lemma {:induction false} RemoveKeepsInvariants(rs: seq<Reward>, id: int)
    requires UniqueIds(rs)
    ensures UniqueIds(RemoveById(rs, id))
    ensures NoDrafts(rs) ==> NoDrafts(RemoveById(rs, id))
    decreases |rs|
  {
    var r := RemoveById(rs, id);
    if rs != [] {
      var t := rs[1..];
      UniqueCons(rs);
      RemoveKeepsInvariants(t, id);
      var rt := RemoveById(t, id);
      if rs[0].id != id {
        assert r == [rs[0]] + rt;
        assert r[1..] == rt;
        UniqueCons(r);
      } else {
        assert r == rt;
      }
    }
  }

  /** An update keeps ids unique and keeps drafts out. */
  lemma ReplaceKeepsInvariants(rs: seq<Reward>, u: Reward)
    requires UniqueIds(rs)
    ensures UniqueIds(ReplaceById(rs, u))
    ensures NoDrafts(rs) ==> NoDrafts(ReplaceById(rs, u))
  {
    var r := ReplaceById(rs, u);
    ReplaceKeepsIds(rs, u);
    forall i, j | 0 <= i < j < |r| ensures r[i].id != r[j].id {
      assert Ids(r)[i] == Ids(rs)[i] && Ids(r)[j] == Ids(rs)[j];
    }
    if NoDrafts(rs) {
      forall x | x in r ensures x.id != 0 {
        var i :| 0 <= i < |r| && r[i] == x;
        assert Ids(r)[i] == Ids(rs)[i];
        assert rs[i] in rs;
      }
    }
  }
}
