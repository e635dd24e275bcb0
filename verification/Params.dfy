/**
  Path parameters (params.go).

  Eight inline slots, then an overflow list, behaving as one map from names to values: the
  inline slots fill first, a name occurs in one slot only, and setting it again changes that
  slot. The search of the trie writes into these slots while it backtracks.
*/
module PathParams {
  import opened Optional

  datatype ParamSlot = ParamSlot(key: string, val: string)

  const INLINE := 8

  /** The map the first n slots stand for. */
  ghost function Prefix(slots: seq<ParamSlot>, n: nat): (m: map<string, string>)
    requires n <= |slots|
  {
    if n == 0 then map[] else Prefix(slots, n - 1)[slots[n - 1].key := slots[n - 1].val]
  }

  ghost function AsMap(slots: seq<ParamSlot>): map<string, string> {
    Prefix(slots, |slots|)
  }

  ghost predicate DistinctKeys(slots: seq<ParamSlot>) {
    forall i, j | 0 <= i < j < |slots| :: slots[i].key != slots[j].key
  }

  lemma {:induction false} PrefixAt(slots: seq<ParamSlot>, i: nat, n: nat)
    requires DistinctKeys(slots) && i < n <= |slots|
    ensures slots[i].key in Prefix(slots, n) && Prefix(slots, n)[slots[i].key] == slots[i].val
    decreases n
  {
    if i < n - 1 { PrefixAt(slots, i, n - 1); }
  }

  lemma {:induction false} PrefixMisses(slots: seq<ParamSlot>, n: nat, key: string)
    requires n <= |slots| && forall i | 0 <= i < n :: slots[i].key != key
    ensures key !in Prefix(slots, n)
    decreases n
  {
    if n > 0 { PrefixMisses(slots, n - 1, key); }
  }

  /** Slots that agree stand for the same map. */
  lemma {:induction false} PrefixSame(a: seq<ParamSlot>, b: seq<ParamSlot>, n: nat)
    requires n <= |a| && n <= |b| && forall k | 0 <= k < n :: a[k] == b[k]
    ensures Prefix(a, n) == Prefix(b, n)
    decreases n
  {
    if n > 0 { PrefixSame(a, b, n - 1); }
  }

  lemma {:induction false} PrefixUpdate(a: seq<ParamSlot>, b: seq<ParamSlot>, i: nat, n: nat)
    requires i < n <= |a| && |a| == |b| && DistinctKeys(a) && b[i].key == a[i].key
    requires forall k | 0 <= k < |a| && k != i :: a[k] == b[k]
    ensures Prefix(b, n) == Prefix(a, n)[a[i].key := b[i].val]
    decreases n
  {
    if i < n - 1 {
      PrefixUpdate(a, b, i, n - 1);
      assert a[i].key != a[n - 1].key;
    } else {
      PrefixSame(a, b, i);
    }
  }

  lemma {:induction false} AsMapUpdate(slots: seq<ParamSlot>, i: nat, v: string)
    requires DistinctKeys(slots) && i < |slots|
    ensures var s := slots[i := ParamSlot(slots[i].key, v)];
      DistinctKeys(s) && AsMap(s) == AsMap(slots)[slots[i].key := v]
  {
    PrefixUpdate(slots, slots[i := ParamSlot(slots[i].key, v)], i, |slots|);
  }

  lemma {:induction false} AsMapAppend(slots: seq<ParamSlot>, slot: ParamSlot)
    requires DistinctKeys(slots) && slot.key !in AsMap(slots)
    ensures DistinctKeys(slots + [slot]) && AsMap(slots + [slot]) == AsMap(slots)[slot.key := slot.val]
  {
    PrefixSame(slots, slots + [slot], |slots|);
    forall i: nat | i < |slots| ensures slots[i].key != slot.key { PrefixAt(slots, i, |slots|); }
  }

  lemma {:induction false} PrefixSize(slots: seq<ParamSlot>, n: nat)
    requires DistinctKeys(slots) && n <= |slots|
    ensures |Prefix(slots, n)| == n
    decreases n
  {
    if n > 0 {
      PrefixSize(slots, n - 1);
      var m, last := Prefix(slots, n - 1), slots[n - 1];
      PrefixMisses(slots, n - 1, last.key);
      assert Prefix(slots, n).Keys == m.Keys + {last.key};
    }
  }

  class Params {
    var slots: array<ParamSlot>
    var count: nat
    var extra: seq<ParamSlot>

    ghost predicate Valid()
      reads this, slots
    {
      && slots.Length == INLINE && count <= INLINE
      && (extra != [] ==> count == INLINE)
      && DistinctKeys(slots[..count] + extra)
    }

    ghost function View(): (m: map<string, string>)
      reads this, slots
      requires Valid()
    {
      AsMap(slots[..count] + extra)
    }

    constructor ()
      ensures Valid() && View() == map[] && fresh(slots)
    {
      slots := new ParamSlot[INLINE](i => ParamSlot("", ""));
      count := 0;
      extra := [];
    }

    /** The first slot with the key, among the inline ones and then the overflow. */
    method Search(key: string) returns (i: nat)
      requires Valid()
      ensures i <= count + |extra|
      ensures i < count + |extra| ==> (slots[..count] + extra)[i].key == key
      ensures i == count + |extra| <==> key !in View()
    {
      ghost var all := slots[..count] + extra;
      i := 0;
      while i < count && slots[i].key != key
        invariant 0 <= i <= count && forall k | 0 <= k < i :: all[k].key != key
      {
        i := i + 1;
      }
      while count <= i < count + |extra| && extra[i - count].key != key
        invariant 0 <= i <= count + |extra| && forall k | 0 <= k < i :: all[k].key != key
        invariant i < count ==> slots[i].key == key
        decreases count + |extra| - i
      {
        i := i + 1;
      }
      if i < |all| { PrefixAt(all, i, |all|); } else { PrefixMisses(all, |all|, key); }
    }

    method Find(key: string) returns (r: Option<string>)
      requires Valid()
      ensures r == if key in View() then Some(View()[key]) else None
    {
      var i := Search(key);
      if i < count + |extra| { PrefixAt(slots[..count] + extra, i, count + |extra|); }
      r := if i < count then Some(slots[i].val) else if i < count + |extra| then Some(extra[i - count].val) else None;
    }

    /** Get cannot tell an absent parameter from an empty one. */
    method Get(key: string) returns (v: string)
      requires Valid()
      ensures v == if key in View() then View()[key] else ""
    {
      var r := Find(key);
      v := if r.Some? then r.value else "";
    }

    method Set(key: string, val: string)
      requires Valid()
      modifies this`count, this`extra, slots
      ensures Valid() && View() == old(View())[key := val]
    {
      ghost var all, slot := slots[..count] + extra, ParamSlot(key, val);
      var i := Search(key);
      if i == count + |extra| {
        AsMapAppend(all, slot);
        Append(ParamSlot(key, val));
      } else {
        AsMapUpdate(all, i, val);
        if i < count {
          slots[i] := ParamSlot(key, val);
        } else {
          extra := extra[i - count := ParamSlot(key, val)];
        }
        assert slots[..count] + extra == all[i := slot];
      }
    }

    method Append(slot: ParamSlot)
      requires slots.Length == INLINE && count <= INLINE && (extra != [] ==> count == INLINE)
      modifies this`count, this`extra, slots
      ensures count <= INLINE && (extra != [] ==> count == INLINE)
      ensures slots[..count] + extra == old(slots[..count] + extra) + [slot]
    {
      if count < INLINE {
        slots[count] := slot;
        count := count + 1;
      } else {
        extra := extra + [slot];
      }
    }

    method Reset()
      requires Valid()
      modifies this`count, this`extra
      ensures Valid() && View() == map[]
    {
      count := 0;
      extra := [];
    }

    method Len() returns (n: nat)
      requires Valid()
      ensures n == |View()|
    {
      n := count + |extra|;
      PrefixSize(slots[..count] + extra, n);
    }

    /** A copy of the parameters as one map; no parameters give a nil map, which reads as empty. */
    method Map() returns (m: map<string, string>)
      requires Valid()
      ensures m == View()
    {
      ghost var all := slots[..count] + extra;
      m := map[];
      for i := 0 to count
        invariant m == Prefix(all, i)
      {
        m := m[slots[i].key := slots[i].val];
      }
      for i := 0 to |extra|
        invariant m == Prefix(all, count + i)
      {
        m := m[extra[i].key := extra[i].val];
      }
    }
  }
}
