/**
 * Virtual addresses for the firmware's runtime services: descriptors of the memory map that are
 * needed at run time are laid out one after the other from a fixed base.
 */
module Runtime {
  const BASE := 0xFFFF_8A00_0000_0000
  const PAGE_SIZE := 0x1000
  const LIMIT := 0x1_0000_0000_0000_0000
  const MEMORY_RUNTIME := 0x8000_0000_0000_0000

  datatype Descriptor = Descriptor(kind: nat, physicalStart: nat, virtualStart: nat, pages: nat, attribute: nat)

  /** Bit 63 of the attribute. */
  predicate IsRuntime(d: Descriptor) {
    d.attribute / MEMORY_RUNTIME % 2 == 1
  }

  /** Of a 64-bit attribute, that is the top bit. */
  lemma RuntimeIsTopBit(d: Descriptor)
    requires d.attribute < 0x1_0000_0000_0000_0000
    ensures IsRuntime(d) <==> d.attribute >= 0x8000_0000_0000_0000
  {
  }

  /** The pages of the runtime descriptors among the first k. */
  function PagesBefore(descriptors: seq<Descriptor>, k: nat): nat
    requires k <= |descriptors|
  {
    if k == 0 then 0
    else PagesBefore(descriptors, k - 1) + if IsRuntime(descriptors[k - 1]) then descriptors[k - 1].pages else 0
  }

  function RuntimeCount(descriptors: seq<Descriptor>, k: nat): nat
    requires k <= |descriptors|
  {
    if k == 0 then 0 else RuntimeCount(descriptors, k - 1) + if IsRuntime(descriptors[k - 1]) then 1 else 0
  }

  /** The runtime descriptors among the first k. */
  function RuntimeIndices(descriptors: seq<Descriptor>, k: nat): set<int>
    requires k <= |descriptors|
  {
    set i | 0 <= i < k && IsRuntime(descriptors[i])
  }

  lemma {:induction false} CountIsSize(descriptors: seq<Descriptor>, k: nat)
    requires k <= |descriptors|
    ensures RuntimeCount(descriptors, k) == |RuntimeIndices(descriptors, k)|
  {
    if k > 0 {
      CountIsSize(descriptors, k - 1);
      var before := RuntimeIndices(descriptors, k - 1);
      assert RuntimeIndices(descriptors, k) == if IsRuntime(descriptors[k - 1]) then before + {k - 1} else before;
    }
  }

  /** The address the k-th descriptor gets, in 64-bit arithmetic. */
  function AddressOf(descriptors: seq<Descriptor>, k: nat): nat
    requires k <= |descriptors|
  {
    (BASE + PagesBefore(descriptors, k) * PAGE_SIZE) % LIMIT
  }

  /** The memory map with addresses assigned; other descriptors and other fields stay. */
  function Assigned(descriptors: seq<Descriptor>): (r: seq<Descriptor>)
    ensures |r| == |descriptors|
  {
    seq(|descriptors|, k requires 0 <= k < |descriptors| =>
      if IsRuntime(descriptors[k]) then descriptors[k].(virtualStart := AddressOf(descriptors, k)) else descriptors[k])
  }

  /** Assign addresses in place, in one pass. */
  method AssignAddresses(descriptors: array<Descriptor>) returns (count: nat)
    modifies descriptors
    ensures descriptors[..] == Assigned(old(descriptors[..]))
    ensures count == RuntimeCount(old(descriptors[..]), descriptors.Length)
  {
    hide AddressOf, PagesBefore, RuntimeCount;
    var currentVirtualAddress := BASE;
    count := 0;
    ghost var before := descriptors[..];
    FirstAddress(before);
    for i := 0 to descriptors.Length
      invariant currentVirtualAddress == AddressOf(before, i) && count == RuntimeCount(before, i)
      invariant forall k :: 0 <= k < descriptors.Length ==>
        descriptors[k] == if k < i then Assigned(before)[k] else before[k]
    {
      if IsRuntime(descriptors[i]) {
        descriptors[i] := descriptors[i].(virtualStart := currentVirtualAddress);
        currentVirtualAddress := (currentVirtualAddress + descriptors[i].pages * PAGE_SIZE) % LIMIT;
        count := count + 1;
      }
      NextAddress(before, i);
    }
  }

  lemma FirstAddress(descriptors: seq<Descriptor>)
    ensures AddressOf(descriptors, 0) == BASE && RuntimeCount(descriptors, 0) == 0
  {
  }

  lemma NextAddress(descriptors: seq<Descriptor>, k: nat)
    requires k < |descriptors|
    ensures AddressOf(descriptors, k + 1)
      == if IsRuntime(descriptors[k]) then (AddressOf(descriptors, k) + descriptors[k].pages * PAGE_SIZE) % LIMIT
        else AddressOf(descriptors, k)
    ensures RuntimeCount(descriptors, k + 1)
      == RuntimeCount(descriptors, k) + if IsRuntime(descriptors[k]) then 1 else 0
  {
    ModuloSum(BASE + PagesBefore(descriptors, k) * PAGE_SIZE, descriptors[k].pages * PAGE_SIZE);
  }

  lemma ModuloSum(x: nat, y: nat)
    ensures (x + y) % LIMIT == (x % LIMIT + y) % LIMIT
  {
  }

  /** Assign the addresses and report them, if the firmware accepts them. */
  method SwitchToVirtualAddressingMode(descriptors: array<Descriptor>, accepted: bool)
    returns (runtimeAddress: nat, runtimeCount: nat)
    modifies descriptors
    ensures descriptors[..] == Assigned(old(descriptors[..]))
    ensures runtimeAddress == if accepted then 0xFFFF_8A00_0000_0000 else 0
    ensures runtimeCount == if accepted then |RuntimeIndices(old(descriptors[..]), descriptors.Length)| else 0
  {
    runtimeAddress, runtimeCount := 0, 0;
    CountIsSize(descriptors[..], descriptors.Length);
    var count := AssignAddresses(descriptors);
    if accepted {
      runtimeAddress, runtimeCount := BASE, count;
    }
  }

  // ---------------------------------------------------------------- what the assignment achieves

  /** The bytes a descriptor's range covers, without wrap-around. */
  predicate Covers(d: Descriptor, x: nat) {
    d.virtualStart <= x < d.virtualStart + d.pages * 0x1000
  }

  /** The first bytes behind the k-th descriptor's predecessors, without wrap-around. */
  function Position(descriptors: seq<Descriptor>, k: nat): nat
    requires k <= |descriptors|
  {
    BASE + PagesBefore(descriptors, k) * PAGE_SIZE
  }

  /** All runtime descriptors fit between the base and the end of the address space. */
  predicate Fits(descriptors: seq<Descriptor>) {
    0xFFFF_8A00_0000_0000 + PagesBefore(descriptors, |descriptors|) * 0x1000 <= 0x1_0000_0000_0000_0000
  }

  lemma {:induction false} PagesGrow(descriptors: seq<Descriptor>, j: nat, k: nat)
    requires j <= k <= |descriptors|
    ensures PagesBefore(descriptors, j) <= PagesBefore(descriptors, k)
    ensures j < k && IsRuntime(descriptors[j]) ==>
      PagesBefore(descriptors, j) + descriptors[j].pages <= PagesBefore(descriptors, k)
    decreases k
  {
    if j < k {
      PagesGrow(descriptors, j, k - 1);
    }
  }

  /** Every runtime range starts where the one before it ends, and ends inside the address space. */
  ghost predicate Consecutive(descriptors: seq<Descriptor>, r: seq<Descriptor>)
    requires |r| == |descriptors|
  {
    forall k :: 0 <= k < |descriptors| && IsRuntime(descriptors[k]) && descriptors[k].pages > 0 ==>
      r[k].virtualStart == Position(descriptors, k) && Position(descriptors, k + 1) <= LIMIT
  }

  /** The ranges are consecutive exactly when their total size fits above the base. */
  lemma ConsecutiveIffFits(descriptors: seq<Descriptor>)
    ensures Consecutive(descriptors, Assigned(descriptors)) <==> Fits(descriptors)
  {
    var n := |descriptors|;
    if Fits(descriptors) {
      forall k | 0 <= k < n && IsRuntime(descriptors[k]) && descriptors[k].pages > 0
        ensures Assigned(descriptors)[k].virtualStart == Position(descriptors, k)
        ensures Position(descriptors, k + 1) <= LIMIT
      {
        PagesGrow(descriptors, k, n);
        PagesGrow(descriptors, k + 1, n);
      }
    } else {
      LastRuntime(descriptors, n);
      var k :| 0 <= k < n && EndsAtTotal(descriptors, k, n);
      assert Position(descriptors, k + 1) > LIMIT;
    }
  }

  /** The last runtime descriptor with pages ends at the total. */
  lemma {:induction false} LastRuntime(descriptors: seq<Descriptor>, n: nat)
    requires n <= |descriptors| && PagesBefore(descriptors, n) > 0
    ensures exists k :: 0 <= k < n && EndsAtTotal(descriptors, k, n)
    decreases n
  {
    var last := descriptors[n - 1];
    if IsRuntime(last) && last.pages > 0 {
      assert EndsAtTotal(descriptors, n - 1, n);
    } else {
      LastRuntime(descriptors, n - 1);
      var k :| 0 <= k < n - 1 && EndsAtTotal(descriptors, k, n - 1);
      assert EndsAtTotal(descriptors, k, n);
    }
  }

  /** Descriptor k has pages, and nothing follows it before n. */
  predicate EndsAtTotal(descriptors: seq<Descriptor>, k: nat, n: nat)
    requires k < n <= |descriptors|
  {
    && IsRuntime(descriptors[k]) && descriptors[k].pages > 0
    && PagesBefore(descriptors, k + 1) == PagesBefore(descriptors, n)
  }

  ghost predicate Covered(descriptors: seq<Descriptor>, r: seq<Descriptor>, x: nat)
    requires |r| == |descriptors|
  {
    exists k :: 0 <= k < |descriptors| && IsRuntime(descriptors[k]) && Covers(r[k], x)
  }

  /** When they fit, the ranges tile the addresses from the base on, without gap or overlap. */
  lemma RangesTile(descriptors: seq<Descriptor>, x: nat)
    requires Fits(descriptors)
    ensures Covered(descriptors, Assigned(descriptors), x)
      <==> 0 <= x - 0xFFFF_8A00_0000_0000 < PagesBefore(descriptors, |descriptors|) * 0x1000
    ensures forall j, k :: 0 <= j < k < |descriptors| && IsRuntime(descriptors[j]) && IsRuntime(descriptors[k]) ==>
      !(Covers(Assigned(descriptors)[j], x) && Covers(Assigned(descriptors)[k], x))
  {
    var r := Assigned(descriptors);
    ConsecutiveIffFits(descriptors);
    forall j, k | 0 <= j < k < |descriptors| && IsRuntime(descriptors[j]) && IsRuntime(descriptors[k])
      && Covers(r[j], x)
      ensures !Covers(r[k], x)
    {
      PagesGrow(descriptors, j, k);
    }
    forall k | 0 <= k < |descriptors| && IsRuntime(descriptors[k]) && Covers(r[k], x)
      ensures BASE <= x < Position(descriptors, |descriptors|)
    {
      PagesGrow(descriptors, k, |descriptors|);
    }
    if BASE <= x < Position(descriptors, |descriptors|) {
      FindRange(descriptors, |descriptors|, x);
    }
  }

  lemma {:induction false} FindRange(descriptors: seq<Descriptor>, n: nat, x: nat)
    requires n <= |descriptors| && Fits(descriptors) && BASE <= x < Position(descriptors, n)
    ensures Covered(descriptors, Assigned(descriptors), x)
    decreases n
  {
    if n > 0 {
      if x < Position(descriptors, n - 1) {
        FindRange(descriptors, n - 1, x);
      } else {
        ConsecutiveIffFits(descriptors);
        assert Covers(Assigned(descriptors)[n - 1], x);
      }
    }
  }
}
