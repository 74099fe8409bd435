/** Tables of addresses with reference counts: the MAC filter and the multicast filters. */
module RefTable {
  import opened Bytes
  import opened Sums

  type Address = seq<byte>

  /** An entry is live while its count is positive. */
  datatype Entry<X> = Entry(addr: Address, count: nat, info: X)

  type Table<X> = seq<Entry<X>>

  /** First live entry of an address, or the length of the table. */
  function Find<X>(t: Table<X>, a: Address): (k: nat)
    ensures k <= |t| && (k < |t| ==> t[k].count > 0 && t[k].addr == a)
    ensures forall j :: 0 <= j < k ==> !(t[j].count > 0 && t[j].addr == a)
  {
    if t == [] then 0 else if t[0].count > 0 && t[0].addr == a then 0 else 1 + Find(t[1..], a)
  }

  function FirstFree<X>(t: Table<X>): (k: nat)
    ensures k <= |t| && (k < |t| ==> t[k].count == 0)
    ensures forall j :: 0 <= j < k ==> t[j].count > 0
  {
    if t == [] then 0 else if t[0].count == 0 then 0 else 1 + FirstFree(t[1..])
  }

  /** No address has two live entries, and free entries hold the unspecified address. */
  ghost predicate Good<X>(t: Table<X>, none: Address) {
    && (forall i, j :: 0 <= i < j < |t| && t[i].count > 0 && t[j].count > 0 ==> t[i].addr != t[j].addr)
    && (forall i :: 0 <= i < |t| && t[i].count == 0 ==> t[i].addr == none)
  }

  /** The loop that every operation starts with: it stops at the entry of the address, and remembers the first free one. */
  method Scan<X>(t: Table<X>, a: Address) returns (k: nat, free: nat)
    ensures k == Find(t, a)
    ensures k == |t| ==> free == FirstFree(t)
  {
    k, free := 0, |t|;
    while k < |t|
      invariant 0 <= k <= |t|
      invariant forall j :: 0 <= j < k ==> !(t[j].count > 0 && t[j].addr == a)
      invariant if free == |t| then forall j :: 0 <= j < k ==> t[j].count > 0
                else 0 <= free < k && t[free].count == 0 && forall j :: 0 <= j < free ==> t[j].count > 0
    {
      if t[k].count > 0 {
        if t[k].addr == a {
          return;
        }
      } else if free == |t| {
        free := k;
      }
      k := k + 1;
    }
  }

  // ----- what a table counts -----

  ghost function Counted<X>(e: Entry<X>): multiset<Address> {
    multiset{}[e.addr := e.count]
  }

  ghost function Counts<X>(t: Table<X>): (ms: seq<multiset<Address>>)
    ensures |ms| == |t| && forall k :: 0 <= k < |t| ==> ms[k] == Counted(t[k])
  {
    seq(|t|, k requires 0 <= k < |t| => Counted(t[k]))
  }

  /** Every address as often as it is referenced. */
  ghost function Refs<X>(t: Table<X>): multiset<Address> {
    Total(Counts(t))
  }

  lemma RefsUpdate<X>(t: Table<X>, k: nat, e: Entry<X>)
    requires k < |t|
    ensures Refs(t[k := e]) + Counted(t[k]) == Refs(t) + Counted(e)
  {
    TotalUpdate(Counts(t), k, Counted(e));
    assert Counts(t[k := e]) == Counts(t)[k := Counted(e)];
  }

  lemma {:induction false} FoundExactly<X>(t: Table<X>, a: Address)
    ensures Find(t, a) < |t| <==> a in Refs(t)
  {
    InTotal(Counts(t), a);
    if k :| 0 <= k < |t| && a in Counts(t)[k] {
      assert t[k].count > 0 && t[k].addr == a;
    }
  }

  // ----- one reference more or less -----

  /** ethAcceptMacAddr: no result when the table is full. */
  function Accept<X>(t: Table<X>, a: Address): Option<Table<X>> {
    var k, f := Find(t, a), FirstFree(t);
    if k < |t| then Some(t[k := t[k].(count := t[k].count + 1)])
    else if f < |t| then Some(t[f := t[f].(addr := a, count := 1)])
    else None
  }

  /** ethDropMacAddr. */
  function Drop<X>(t: Table<X>, a: Address, none: Address): Table<X> {
    var k := Find(t, a);
    if k == |t| then t
    else if t[k].count == 1 then t[k := t[k].(addr := none, count := 0)]
    else t[k := t[k].(count := t[k].count - 1)]
  }

  lemma AcceptRefs<X>(t: Table<X>, a: Address, none: Address)
    requires Good(t, none)
    ensures var u := Accept(t, a);
            && (u.None? <==> a !in Refs(t) && forall k :: 0 <= k < |t| ==> t[k].count > 0)
            && (u.Some? ==> |u.value| == |t| && Good(u.value, none) && Refs(u.value) == Refs(t) + multiset{a})
  {
    hide Refs, Counted, Good;
    FoundExactly(t, a);
    var k, f := Find(t, a), FirstFree(t);
    if k < |t| {
      var e := t[k].(count := t[k].count + 1);
      AcceptGood(t, a, none);
      RefsUpdate(t, k, e);
      OneMore(t[k], e);
      Cancel(Refs(t[k := e]), Refs(t), Counted(t[k]), a);
    } else if f < |t| {
      var e := t[f].(addr := a, count := 1);
      AcceptGood(t, a, none);
      RefsUpdate(t, f, e);
      OneMore(t[f], e);
      Cancel(Refs(t[f := e]), Refs(t), Counted(t[f]), a);
    }
  }

  lemma OneMore<X>(d: Entry<X>, e: Entry<X>)
    requires e.count == d.count + 1 && (e.addr == d.addr || d.count == 0)
    ensures Counted(e) == Counted(d) + multiset{e.addr}
  {
  }

  lemma AcceptGood<X>(t: Table<X>, a: Address, none: Address)
    requires Good(t, none) && Accept(t, a).Some?
    ensures Good(Accept(t, a).value, none)
  {
  }

  lemma DropGood<X>(t: Table<X>, a: Address, none: Address)
    requires Good(t, none)
    ensures Good(Drop(t, a, none), none)
  {
  }

  lemma DropRefs<X>(t: Table<X>, a: Address, none: Address)
    requires Good(t, none) && a in Refs(t)
    ensures var u := Drop(t, a, none); |u| == |t| && Good(u, none) && Refs(u) + multiset{a} == Refs(t)
  {
    hide Refs, Counted, Good;
    FoundExactly(t, a);
    DropGood(t, a, none);
    var k := Find(t, a);
    var e := if t[k].count == 1 then t[k].(addr := none, count := 0) else t[k].(count := t[k].count - 1);
    RefsUpdate(t, k, e);
    OneMore(e, t[k]);
    Cancel(Refs(t), Refs(t[k := e]), Counted(e), a);
  }

  lemma {:induction false} FindUnique<X>(t: Table<X>, a: Address, none: Address, k: nat)
    requires Good(t, none) && k < |t| && t[k].count > 0 && t[k].addr == a
    ensures Find(t, a) == k
  {
    var j := Find(t, a);
    assert j <= k;
  }

  lemma FreeEntry<X>(t: Table<X>, none: Address, f: nat)
    requires Good(t, none) && f < |t| && t[f].count == 0
    ensures t[f].addr == none
  {
  }

  /** Dropping an address that has just been accepted gives the table back. */
  lemma AcceptDrop<X>(t: Table<X>, a: Address, none: Address)
    requires Good(t, none) && Accept(t, a).Some?
    ensures Drop(Accept(t, a).value, a, none) == t
  {
    hide Good;
    var u := Accept(t, a).value;
    var k, f := Find(t, a), FirstFree(t);
    AcceptGood(t, a, none);
    if k < |t| {
      FindUnique(u, a, none, k);
      assert t[k := u[k]][k := t[k]] == t;
    } else {
      FindUnique(u, a, none, f);
      FreeEntry(t, none, f);
      assert t[f := u[f]][f := t[f]] == t;
    }
  }
}
