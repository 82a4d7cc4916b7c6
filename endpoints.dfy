/** Endpoint budgeting and numbering: what add() records and what
    initEndpoints() assigns, as functions of the registry. */
module Endpoints {
  import opened UsbTypes

  /** The shape initEndpoints() insists on for every interface. */
  predicate WellFormed(info: InterfaceInfo)
  {
    1 <= info.allocateEndpoints <= info.iface.numEndpoints <= 2
  }

  predicate AllWellFormed(es: seq<Entry>)
  {
    forall i :: 0 <= i < |es| ==> WellFormed(es[i].info)
  }

  /** Endpoint numbers the first n registered interfaces consume. */
  function Consumed(es: seq<Entry>, n: nat): nat
    requires n <= |es|
    decreases n
  {
    if n == 0 then 0 else Consumed(es, n - 1) + es[n - 1].info.allocateEndpoints
  }

  /** Endpoint numbers the whole registry consumes. */
  function SumAlloc(es: seq<Entry>): nat
  {
    Consumed(es, |es|)
  }

  /** The first interfaces consume no more than the first j, and each
      well-formed interface in between consumes at least one number. */
  lemma {:induction false} ConsumedMonotone(es: seq<Entry>, i: nat, j: nat)
    requires i <= j <= |es|
    ensures Consumed(es, i) <= Consumed(es, j)
    ensures AllWellFormed(es) ==> Consumed(es, i) + (j - i) <= Consumed(es, j)
    decreases j - i
  {
    if i < j {
      ConsumedMonotone(es, i, j - 1);
    }
  }

  /** Consumed depends only on the allocations of the first n interfaces. */
  lemma {:induction false} ConsumedAgree(a: seq<Entry>, b: seq<Entry>, n: nat)
    requires n <= |a| && n <= |b|
    requires forall i :: 0 <= i < n ==> a[i].info.allocateEndpoints == b[i].info.allocateEndpoints
    ensures Consumed(a, n) == Consumed(b, n)
    decreases n
  {
    if n > 0 {
      ConsumedAgree(a, b, n - 1);
    }
  }

  lemma SumAllocAppend(es: seq<Entry>, e: Entry)
    ensures SumAlloc(es + [e]) == SumAlloc(es) + e.info.allocateEndpoints
  {
    ConsumedAgree(es + [e], es, |es|);
  }

  /** SumAlloc depends on the metadata of the entries only. */
  lemma SumAllocInfoOnly(a: seq<Entry>, b: seq<Entry>)
    requires |a| == |b|
    requires forall i :: 0 <= i < |a| ==> a[i].info == b[i].info
    ensures SumAlloc(a) == SumAlloc(b)
  {
    ConsumedAgree(a, b, |a|);
  }

  /** Interface k's allocation starts after the allocations of the
      interfaces before it and ends within the total. */
  lemma ConsumedBefore(es: seq<Entry>)
    ensures forall k :: 0 <= k < |es| ==>
              Consumed(es, k) + es[k].info.allocateEndpoints <= SumAlloc(es)
  {
    forall k | 0 <= k < |es|
      ensures Consumed(es, k) + es[k].info.allocateEndpoints <= SumAlloc(es)
    {
      ConsumedMonotone(es, k + 1, |es|);
    }
  }

  /** The endpoint objects initEndpoints() gives one interface when the
      running counter stands at `counter`: IN at the counter, OUT (only for a
      two-endpoint interface) at counter + allocateEndpoints - 1, both with
      the IN endpoint's attributes. Whatever the entry held before is dropped. */
  function AssignOne(e: Entry, counter: nat): (r: Entry)
    requires WellFormed(e.info) && counter + e.info.allocateEndpoints <= 256
    ensures r.info == e.info && r.interfaceIdx == e.interfaceIdx
  {
    e.(inEp := Some(Endpoint(counter, e.info.epIn.attr)),
       outEp := if e.info.iface.numEndpoints > 1
                then Some(Endpoint(counter + e.info.allocateEndpoints - 1, e.info.epIn.attr))
                else None)
  }

  /** The first n entries after initEndpoints(): the counter starts at 1
      (endpoint 0 is the control endpoint) and advances by allocateEndpoints
      per interface. */
  function AssignedTo(es: seq<Entry>, n: nat): (r: seq<Entry>)
    requires AllWellFormed(es) && SumAlloc(es) <= 255 && n <= |es|
    ensures |r| == n
    decreases n
  {
    if n == 0 then []
    else
      ConsumedMonotone(es, n, |es|);
      AssignedTo(es, n - 1) + [AssignOne(es[n - 1], 1 + Consumed(es, n - 1))]
  }

  /** The registry after initEndpoints(). */
  function Assigned(es: seq<Entry>): (r: seq<Entry>)
    requires AllWellFormed(es) && SumAlloc(es) <= 255
    ensures |r| == |es|
  {
    AssignedTo(es, |es|)
  }

  /** Entry k of the assigned registry, in closed form: interface k gets its
      endpoints from 1 + the numbers the interfaces before it consume, and
      keeps its metadata and index. */
  lemma {:induction false} AssignedToAt(es: seq<Entry>, n: nat, k: nat)
    requires AllWellFormed(es) && SumAlloc(es) <= 255 && k < n <= |es|
    ensures Consumed(es, k) + es[k].info.allocateEndpoints <= 255
    ensures AssignedTo(es, n)[k] == AssignOne(es[k], 1 + Consumed(es, k))
    decreases n
  {
    ConsumedMonotone(es, k + 1, |es|);
    if k < n - 1 {
      AssignedToAt(es, n - 1, k);
    }
  }

  lemma AssignedAt(es: seq<Entry>, k: nat)
    requires AllWellFormed(es) && SumAlloc(es) <= 255 && k < |es|
    ensures Consumed(es, k) + es[k].info.allocateEndpoints <= 255
    ensures Assigned(es)[k] == AssignOne(es[k], 1 + Consumed(es, k))
  {
    AssignedToAt(es, |es|, k);
  }

  /** Assignment keeps every entry's metadata and index, hence the total budget. */
  lemma AssignedKeepsRegistry(es: seq<Entry>)
    requires AllWellFormed(es) && SumAlloc(es) <= 255
    ensures forall k :: 0 <= k < |es| ==>
              Assigned(es)[k].info == es[k].info && Assigned(es)[k].interfaceIdx == es[k].interfaceIdx
    ensures SumAlloc(Assigned(es)) == SumAlloc(es)
  {
    var r := Assigned(es);
    forall k | 0 <= k < |es|
      ensures r[k].info == es[k].info && r[k].interfaceIdx == es[k].interfaceIdx
    {
      AssignedAt(es, k);
    }
    SumAllocInfoOnly(r, es);
  }

  /** In-endpoint number of entry k after assignment. */
  function InNumber(es: seq<Entry>, k: nat): (n: nat)
    requires AllWellFormed(es) && SumAlloc(es) <= 255 && k < |es|
    ensures n == 1 + Consumed(es, k)
  {
    AssignedAt(es, k);
    Assigned(es)[k].inEp.value.ep
  }

  /** The numbering is ascending and contiguous: the first IN is 1, each
      interface starts where the previous one's allocation ends, the OUT is
      present exactly for two-endpoint interfaces and is the last number of
      the interface's own allocation, and the numbers consumed end exactly at
      endpointsUsed = 1 + SumAlloc. */
  lemma AssignedContiguous(es: seq<Entry>)
    requires AllWellFormed(es) && SumAlloc(es) <= 255
    ensures |es| > 0 ==> InNumber(es, 0) == 1
    ensures forall k :: 0 <= k < |es| - 1 ==>
              InNumber(es, k + 1) == InNumber(es, k) + es[k].info.allocateEndpoints
    ensures |es| > 0 ==>
              InNumber(es, |es| - 1) + es[|es| - 1].info.allocateEndpoints == 1 + SumAlloc(es)
    ensures forall k :: 0 <= k < |es| ==>
              (Assigned(es)[k].outEp.Some? <==> es[k].info.iface.numEndpoints == 2)
    ensures forall k :: 0 <= k < |es| && Assigned(es)[k].outEp.Some? ==>
              Assigned(es)[k].outEp.value.ep == InNumber(es, k) + es[k].info.allocateEndpoints - 1
  {
    forall k | 0 <= k < |es|
      ensures Assigned(es)[k].outEp.Some? <==> es[k].info.iface.numEndpoints == 2
      ensures Assigned(es)[k].outEp.Some? ==>
                Assigned(es)[k].outEp.value.ep == InNumber(es, k) + es[k].info.allocateEndpoints - 1
    {
      AssignedAt(es, k);
    }
  }

  /** No two interfaces share an endpoint number: every number of an earlier
      interface is below every number of a later one. */
  lemma AssignedDisjoint(es: seq<Entry>, i: nat, j: nat)
    requires AllWellFormed(es) && SumAlloc(es) <= 255 && i < j < |es|
    ensures InNumber(es, i) + es[i].info.allocateEndpoints <= InNumber(es, j)
    ensures Assigned(es)[i].outEp.Some? ==> Assigned(es)[i].outEp.value.ep < InNumber(es, j)
  {
    AssignedAt(es, i);
    ConsumedMonotone(es, i + 1, j);
  }

  /** Rebuilding looks only at the metadata and the indices: whatever
      endpoints the entries held before, the result is the same. */
  lemma AssignedIgnoresOldEndpoints(a: seq<Entry>, b: seq<Entry>)
    requires AllWellFormed(a) && SumAlloc(a) <= 255
    requires |a| == |b|
    requires forall i :: 0 <= i < |a| ==> a[i].info == b[i].info && a[i].interfaceIdx == b[i].interfaceIdx
    ensures AllWellFormed(b) && SumAlloc(b) <= 255
    ensures Assigned(a) == Assigned(b)
  {
    SumAllocInfoOnly(a, b);
    forall k | 0 <= k < |a|
      ensures Assigned(a)[k] == Assigned(b)[k]
    {
      ConsumedAgree(a, b, k);
      AssignedAt(a, k);
      AssignedAt(b, k);
    }
  }

  /** Running initEndpoints() twice gives the assignment of running it once. */
  lemma AssignedIdempotent(es: seq<Entry>)
    requires AllWellFormed(es) && SumAlloc(es) <= 255
    ensures AllWellFormed(Assigned(es)) && SumAlloc(Assigned(es)) <= 255
    ensures Assigned(Assigned(es)) == Assigned(es)
  {
    AssignedKeepsRegistry(es);
    AssignedIgnoresOldEndpoints(es, Assigned(es));
  }
}
