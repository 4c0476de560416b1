/**
 * The key pool of the mixed benchmark workload. Readers lease a key, deletes take one that nobody
 * leases, puts add new ones; every pool call is atomic under the pool's lock. A key is written as the
 * sequence number its name is formatted from.
 */
module Pools {
  import opened Base

  type Key = nat

  datatype Pool = Pool(keys: seq<Key>, readers: map<Key, nat>, cap: nat)

  ghost predicate Distinct(keys: seq<Key>) {
    forall i, j :: 0 <= i < j < |keys| ==> keys[i] != keys[j]
  }

  function Leased(p: Pool, key: Key): Pool {
    p.(readers := p.readers[key := 1 + if key in p.readers then p.readers[key] else 0])
  }

  function Released(p: Pool, key: Key): Pool {
    if key !in p.readers then p
    else if p.readers[key] <= 1 then p.(readers := p.readers - {key})
    else p.(readers := p.readers[key := p.readers[key] - 1])
  }

  function Added(p: Pool, key: Key): Pool {
    if |p.keys| < p.cap then p.(keys := p.keys + [key]) else p
  }

  /** Drops position `i` by moving the last key there. */
  function SwapRemove(keys: seq<Key>, i: nat): seq<Key>
    requires i < |keys|
  {
    keys[i := keys[|keys| - 1]][..|keys| - 1]
  }

  /** Position number `offset` of a probe that starts at `start` and wraps around. */
  function Probe(len: nat, start: nat, offset: nat): (i: nat)
    requires start < len && offset < len
    ensures i < len
  {
    if start + offset < len then start + offset else start + offset - len
  }

  lemma {:induction false} RemainderOf(a: nat, n: nat, q: nat)
    requires n > 0 && a / n == q
    ensures a % n == a - n * q
  {
  }

  lemma {:induction false} ProbeIsRemainder(len: nat, start: nat, offset: nat)
    requires start < len && offset < len
    ensures (start + offset) % len == Probe(len, start, offset)
  {
    var a := start + offset;
    var q := if a < len then 0 else 1;
    QuotUnique(a, len, q);
    QuotIsDivision(a, len);
    RemainderOf(a, len, q);
  }

  /** A probe from any start visits every position. */
  lemma {:induction false} ProbeVisitsAll(len: nat, start: nat, i: nat)
    requires start < len && i < len
    ensures var offset := if start <= i then i - start else i + len - start;
            offset < len && Probe(len, start, offset) == i
  {
  }

  /** The first unleased position at or after `offset` in probe order. */
  function FirstFree(p: Pool, start: nat, offset: nat): (r: Option<nat>)
    requires p.keys == [] || start < |p.keys|
    ensures r.Some? ==> r.value < |p.keys| && p.keys[r.value] !in p.readers
    decreases |p.keys| - offset
  {
    if offset >= |p.keys| then None
    else
      var i := Probe(|p.keys|, start, offset);
      if p.keys[i] !in p.readers then Some(i) else FirstFree(p, start, offset + 1)
  }

  lemma {:induction false} NoneFree(p: Pool, start: nat, offset: nat, o: nat)
    requires start < |p.keys| && FirstFree(p, start, offset).None? && offset <= o < |p.keys|
    ensures p.keys[Probe(|p.keys|, start, o)] in p.readers
    decreases |p.keys| - offset
  {
    if offset < o {
      NoneFree(p, start, offset + 1, o);
    }
  }

  /** Whatever the random start, a delete finds nothing exactly when every pooled key is leased. */
  lemma {:induction false} TakeFailsIffAllLeased(p: Pool, start: nat)
    requires p.keys == [] || start < |p.keys|
    ensures FirstFree(p, start, 0).None? <==> forall i :: 0 <= i < |p.keys| ==> p.keys[i] in p.readers
  {
    if FirstFree(p, start, 0).None? {
      forall i | 0 <= i < |p.keys| ensures p.keys[i] in p.readers {
        ProbeVisitsAll(|p.keys|, start, i);
        NoneFree(p, start, 0, if start <= i then i - start else i + |p.keys| - start);
      }
    }
  }

  // ----- The pool's code -----

  class ObjectPool {
    const cap: nat
    var keys: seq<Key>
    var readers: map<Key, nat>

    function View(): Pool
      reads this
    {
      Pool(keys, readers, cap)
    }

    constructor (initial: seq<Key>, objects: nat)
      ensures View() == Pool(initial, map[], if objects * 2 > 10000 then objects * 2 else 10000)
    {
      cap := if objects * 2 > 10000 then objects * 2 else 10000;
      keys, readers := initial, map[];
    }

    /** `idx` is the random index. */
    method PickForGet(idx: nat) returns (key: Option<Key>)
      requires keys == [] || idx < |keys|
      modifies this`readers
      ensures key == if keys == [] then None else Some(keys[idx])
      ensures View() == if keys == [] then old(View()) else Leased(old(View()), keys[idx])
    {
      if keys == [] {
        return None;
      }
      var picked := keys[idx];
      if picked !in readers {
        readers := readers[picked := 0];
      }
      readers := readers[picked := readers[picked] + 1];
      return Some(picked);
    }

    method ReleaseRead(key: Key)
      requires key in readers ==> readers[key] > 0
      modifies this`readers
      ensures View() == Released(old(View()), key)
    {
      if key in readers {
        readers := readers[key := readers[key] - 1];
        if readers[key] == 0 {
          readers := readers - {key};
        }
      }
    }

    /** `start` is the random index to probe from. */
    method TakeForDelete(start: nat) returns (key: Option<Key>)
      requires keys == [] || start < |keys|
      modifies this`keys
      ensures key.None? <==> forall i :: 0 <= i < |old(keys)| ==> old(keys)[i] in readers
      ensures var at := FirstFree(old(View()), start, 0);
              if at.None? then key == None && View() == old(View())
              else key == Some(old(keys)[at.value]) && View() == old(View()).(keys := SwapRemove(old(keys), at.value))
    {
      ghost var before := View();
      TakeFailsIffAllLeased(before, start);
      if keys == [] {
        return None;
      }
      var offset := 0;
      while offset < |keys|
        invariant 0 <= offset <= |keys|
        invariant View() == before && FirstFree(before, start, 0) == FirstFree(before, start, offset)
      {
        var idx := (start + offset) % |keys|;
        ProbeIsRemainder(|keys|, start, offset);
        if keys[idx] !in readers {
          var taken := keys[idx];
          keys := SwapRemove(keys, idx);
          return Some(taken);
        }
        offset := offset + 1;
      }
      return None;
    }

    /** After a failed delete, and after a successful put. */
    method ReturnKey(key: Key)
      modifies this`keys
      ensures View() == Added(old(View()), key)
    {
      if |keys| < cap {
        keys := keys + [key];
      }
    }
  }
}
