/** Which proxy owns a file, and which proxy watches which: the ring of proxy ids. */
module Ring {
  import opened Bytes
  import opened Collections

  /** 256-bit ids under their lexicographic order, as numbers. */
  type Id = nat

  ghost predicate Sorted(l: seq<Id>) { forall i, j | 0 <= i < j < |l| :: l[i] < l[j] }

  /** Independent of any list: the least id above the key, or the least id of all. */
  ghost predicate IsOwner(ids: set<Id>, key: Id, p: Id) {
    && p in ids
    && (forall q | q in ids && key < q :: key < p <= q)
    && ((forall q | q in ids :: q <= key) ==> forall q | q in ids :: p <= q)
  }

  lemma OwnerIsUnique(ids: set<Id>, key: Id, p: Id, q: Id)
    requires IsOwner(ids, key, p) && IsOwner(ids, key, q)
    ensures p == q
  {
  }

  /** How many of the list's ids are at most the key: the index upper_bound returns. */
  function Above(l: seq<Id>, key: Id): nat {
    if l == [] || key < l[0] then 0 else 1 + Above(l[1..], key)
  }

  /** The vector lookup of the proxy, with wrap-around. */
  function Owner(l: seq<Id>, key: Id): Id
    requires l != []
  {
    if Above(l, key) < |l| then l[Above(l, key)] else l[0]
  }

  lemma {:induction false} AboveSplits(l: seq<Id>, key: Id)
    requires Sorted(l)
    ensures Above(l, key) <= |l|
    ensures forall i | 0 <= i < |l| :: l[i] <= key <==> i < Above(l, key)
    decreases |l|
  {
    if l != [] && l[0] <= key {
      AboveSplits(l[1..], key);
      assert forall i | 0 < i < |l| :: l[i] == l[1..][i - 1];
    }
  }

  lemma OwnerIsOwner(l: seq<Id>, key: Id)
    requires Sorted(l) && l != []
    ensures IsOwner(Elems(l), key, Owner(l, key))
  {
    hide Above;
    AboveSplits(l, key);
    assert Owner(l, key) in l;
  }

  /** std::upper_bound: binary search. */
  method UpperBound(l: seq<Id>, key: Id) returns (at: nat)
    requires Sorted(l)
    ensures at == Above(l, key)
  {
    AboveSplits(l, key);
    hide Above;
    var first, count := 0, |l|;
    while count > 0
      invariant 0 <= first && first + count <= |l|
      invariant first <= Above(l, key) <= first + count
    {
      var step := count / 2;
      if l[first + step] <= key {
        first, count := first + step + 1, count - (step + 1);
      } else {
        count := step;
      }
    }
    at := first;
  }

  // ---- membership changes

  /** q comes before p when walking up the ring from the key. */
  predicate Closer(key: Id, q: Id, p: Id) {
    if key < p then key < q < p else key < q || q < p
  }

  lemma OwnerWith(ids: set<Id>, q: Id, key: Id, p: Id)
    requires q !in ids && IsOwner(ids, key, p)
    ensures IsOwner(ids + {q}, key, if Closer(key, q, p) then q else p)
  {
    assert p in ids + {q} && q in ids + {q};
  }

  /** A new proxy takes keys for itself only: those it is closer to than their old owner. */
  lemma JoinMovesToNewcomer(ids: set<Id>, n: Id, key: Id, before: Id, after: Id)
    requires n !in ids && IsOwner(ids, key, before) && IsOwner(ids + {n}, key, after)
    ensures after == if Closer(key, n, before) then n else before
  {
    OwnerWith(ids, n, key, before);
    OwnerIsUnique(ids + {n}, key, after, if Closer(key, n, before) then n else before);
  }

  /** A leaving proxy gives up its own keys only. */
  lemma LeaveMovesOwnKeys(ids: set<Id>, n: Id, key: Id, before: Id, after: Id)
    requires n in ids && IsOwner(ids, key, before) && IsOwner(ids - {n}, key, after)
    ensures before != n ==> after == before
    ensures before == n ==> after != n
  {
    if before != n { assert before in ids - {n}; }
  }

  /** launcher::reconfigure: the bound files that this proxy no longer owns are told the new owner. */
  method Reconfigure(l: seq<Id>, me: Id, bound: seq<Id>) returns (told: seq<(Id, Id)>)
    requires Sorted(l) && l != []
    ensures forall k, o :: (k, o) in told <==> k in bound && IsOwner(Elems(l), k, o) && o != me
  {
    hide Above, Owner, IsOwner, Elems;
    told := [];
    for i := 0 to |bound|
      invariant forall k, o :: (k, o) in told <==> k in bound[..i] && IsOwner(Elems(l), k, o) && o != me
    {
      var key := bound[i];
      var owner := Lookup(l, key);
      forall o | IsOwner(Elems(l), key, o) ensures o == owner { OwnerIsUnique(Elems(l), key, o, owner); }
      if owner != me { told := told + [(key, owner)]; }
      assert bound[..i + 1] == bound[..i] + [key];
    }
    assert bound[..|bound|] == bound;
  }

  method Lookup(l: seq<Id>, key: Id) returns (owner: Id)
    requires Sorted(l) && l != []
    ensures owner == Owner(l, key) && IsOwner(Elems(l), key, owner)
  {
    hide IsOwner, Above;
    var at := UpperBound(l, key);
    OwnerIsOwner(l, key);
    owner := if at < |l| then l[at] else l[0];
  }

  // ---- the client's map

  type Socket = nat

  class Client {
    var proxies: map<Id, Socket>

    constructor ()
      ensures proxies == map[]
    {
      proxies := map[];
    }

    /** Rebuilds the map for a new list; `open` connects to a proxy, None where that throws, which leaves the
        old map in place.  Nothing is rebuilt when the list is as long as the map and has only known ids: then
        the ids are the same. */
    method Reconfigure(l: seq<Id>, open: Id -> Option<Socket>, isOpen: Socket -> bool) returns (ok: bool)
      requires Sorted(l)
      modifies this
      ensures ok ==> proxies.Keys == Elems(l)
      ensures old(proxies).Keys == Elems(l) ==> ok && proxies == old(proxies)
      ensures ok && old(proxies).Keys != Elems(l) ==> forall id | id in l ::
                Some(proxies[id]) == if id in old(proxies) && isOpen(old(proxies)[id]) then Some(old(proxies)[id]) else open(id)
      ensures !ok ==> proxies == old(proxies)
      ensures ok <==> old(proxies).Keys == Elems(l)
                      || forall id | id in l :: (id in old(proxies) && isOpen(old(proxies)[id])) || open(id).Some?
    {
      hide Elems;
      var same := KnowsExactly(l);
      if same { return true; }
      var next: map<Id, Socket> := map[];
      for i := 0 to |l|
        invariant proxies == old(proxies)
        invariant forall id :: id in next <==> id in l[..i]
        invariant forall id | id in next ::
                    Some(next[id]) == if id in proxies && isOpen(proxies[id]) then Some(proxies[id]) else open(id)
      {
        var id := l[i];
        assert l[..i + 1] == l[..i] + [id] && id in l;
        if id in proxies && isOpen(proxies[id]) {
          next := next[id := proxies[id]];
        } else {
          var socket := open(id);
          if socket.None? { return false; }
          next := next[id := socket.value];
        }
      }
      assert l[..|l|] == l;
      proxies := next;
      ok := true;
    }

    /** The list is as long as the map and has only known ids. */
    method KnowsExactly(l: seq<Id>) returns (same: bool)
      requires Sorted(l)
      ensures same <==> proxies.Keys == Elems(l)
    {
      hide Elems;
      DistinctSize(l);
      if |l| != |proxies| { return false; }
      same := true;
      for i := 0 to |l|
        invariant same <==> forall j | 0 <= j < i :: l[j] in proxies
      {
        if l[i] !in proxies { same := false; }
      }
      if same {
        assert Elems(l) <= proxies.Keys;
        SubsetOfSameSize(Elems(l), proxies.Keys);
      }
    }

    /** proxys_->upper_bound, and proxys_->begin when there is no key above. */
    method Select(key: Id) returns (owner: Id)
      requires proxies != map[]
      ensures IsOwner(proxies.Keys, key, owner)
    {
      var above := KeysAbove(proxies.Keys, key);
      var among := if above != {} then above else proxies.Keys;
      ghost var least := LeastExists(among);
      owner :| owner in among && IsLeast(among, owner);
      LeastIsOwner(proxies.Keys, key, owner);
    }
  }

  function KeysAbove(ids: set<Id>, key: Id): (r: set<Id>)
    ensures forall q :: q in r <==> q in ids && key < q
  {
    set q | q in ids && key < q
  }

  /** The least key above, or the least key when there is none above, is the owner. */
  lemma LeastIsOwner(ids: set<Id>, key: Id, p: Id)
    requires IsLeast(if KeysAbove(ids, key) != {} then KeysAbove(ids, key) else ids, p)
    ensures IsOwner(ids, key, p)
  {
    var above := KeysAbove(ids, key);
    if above != {} {
      var q :| q in above;
      forall q | q in ids && key < q ensures key < p <= q { assert q in above; }
    } else {
      forall q | q in ids ensures p <= q && !(key < q) { assert q !in above; }
    }
  }

  predicate IsLeast(ids: set<Id>, m: Id) { m in ids && forall q | q in ids :: m <= q }

  lemma LeastExists(ids: set<Id>) returns (m: Id)
    requires ids != {}
    ensures IsLeast(ids, m)
    decreases ids
  {
    var x :| x in ids;
    var below := set q | q in ids && q < x;
    assert forall q | q in ids :: q in below <==> q < x;
    if below == {} {
      m := x;
    } else {
      assert x !in below;
      m := LeastExists(below);
    }
  }

  /** Client and proxy pick the same owner for every key, once both know the same proxies. */
  lemma ClientAndProxyAgree(proxies: map<Id, Socket>, l: seq<Id>, key: Id, selected: Id)
    requires Sorted(l) && l != [] && proxies.Keys == Elems(l) && IsOwner(proxies.Keys, key, selected)
    ensures selected == Owner(l, key)
  {
    hide IsOwner;
    OwnerIsOwner(l, key);
    OwnerIsUnique(Elems(l), key, selected, Owner(l, key));
  }

  // ---- who watches whom

  /** The proxy that p checks for life signs. */
  function Watched(l: seq<Id>, p: Id): Id
    requires l != []
  {
    Owner(l, p)
  }

  /** The index k places after i on a ring of n. */
  function Around(n: nat, i: nat, k: nat): nat
    requires i < n && k <= n
  {
    if i + k < n then i + k else i + k - n
  }

  /** Ids are watched in ring order. */
  lemma WatchedIsNext(l: seq<Id>, i: nat)
    requires Sorted(l) && i < |l|
    ensures Watched(l, l[i]) == l[Around(|l|, i, 1)]
  {
    hide Above;
    AboveSplits(l, l[i]);
    assert i < Above(l, l[i]);
    assert i + 1 < |l| ==> !(l[i + 1] <= l[i]);
  }

  function WatchedAfter(l: seq<Id>, p: Id, k: nat): Id
    requires l != []
  {
    if k == 0 then p else Watched(l, WatchedAfter(l, p, k - 1))
  }

  lemma {:induction false} WatchedAfterIs(l: seq<Id>, i: nat, k: nat)
    requires Sorted(l) && i < |l| && k <= |l|
    ensures WatchedAfter(l, l[i], k) == l[Around(|l|, i, k)]
  {
    hide Watched;
    if k > 0 {
      WatchedAfterIs(l, i, k - 1);
      WatchedIsNext(l, Around(|l|, i, k - 1));
    }
  }

  /** With two proxies or more nobody watches itself, everybody is watched by exactly one other, and the
      watching forms a single cycle through all of them. */
  lemma WatchCoversTheRing(l: seq<Id>, i: nat, j: nat)
    requires Sorted(l) && 2 <= |l| && i < |l| && j < |l|
    ensures Watched(l, l[i]) != l[i]
    ensures Watched(l, l[i]) == Watched(l, l[j]) ==> i == j
    ensures Watched(l, l[Around(|l|, j, |l| - 1)]) == l[j]
    ensures WatchedAfter(l, l[i], if i <= j then j - i else j + |l| - i) == l[j]
  {
    hide Watched, WatchedAfter;
    WatchedIsNext(l, i);
    WatchedIsNext(l, j);
    WatchedAfterIs(l, i, if i <= j then j - i else j + |l| - i);
    WatchedIsNext(l, Around(|l|, j, |l| - 1));
  }
}
