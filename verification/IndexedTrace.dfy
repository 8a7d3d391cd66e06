/**
 * TraceBenchmark: the trace is rewritten so that its pointers become indices into an array
 * (GetTraceData), and the rewritten trace is replayed over that array (RunTrace). Replaying
 * the original trace over a map from pointers to blocks is the reference.
 *
 * What the allocator returns is an input: results[i] is the block entry i gets, 0 for nullptr.
 */
module IndexedTrace {
  import opened Common
  import opened Trace

  // ------------------------------------------------------------- the index compiler

  datatype Compiler = Compiler(
    free: seq<nat>,          // free_indices, the top last
    index: map<nat, nat>,    // ptr_to_index
    num: nat)                // num_ptrs

  const EMPTY: Compiler := Compiler([], map[], 0)

  /** GetIndex: the index handed out and the state after. */
  function GetIndex(c: Compiler): (nat, Compiler)
  {
    if c.free == [] then (c.num, c.(num := c.num + 1))
    else (c.free[|c.free| - 1], c.(free := c.free[..|c.free| - 1]))
  }

  function Bind(c: Compiler, e: Entry): (Compiler, Entry)
  {
    var (idx, c1) := GetIndex(c);
    (c1.(index := c1.index[e.ptr := idx]), e.(ptr := idx))
  }

  function Unbind(c: Compiler, ptr: nat): Compiler
    requires ptr in c.index
  {
    c.(free := c.free + [c.index[ptr]], index := c.index - {ptr})
  }

  /** One round of the loop, or None when the trace names a pointer that is not live. */
  function CompileEntry(c: Compiler, e: Entry): Option<(Compiler, Entry)>
  {
    match e.kind
    case Malloc | Calloc | Memalign => Some(Bind(c, e))
    case Realloc =>
      if e.oldPtr == 0 then Some(Bind(c, e))
      else if e.oldPtr !in c.index then None
      else Some(Bind(Unbind(c, e.oldPtr), e.(oldPtr := c.index[e.oldPtr] + 1)))
    case Free =>
      if e.ptr == 0 then Some((c, e))
      else if e.ptr !in c.index then None
      else Some((Unbind(c, e.ptr), e.(ptr := c.index[e.ptr] + 1)))
    case ThreadDone => Some((c, e))
  }

  datatype Compiled = Compiled(state: Compiler, code: seq<Entry>)

  function Compile(trace: seq<Entry>, i: nat): Option<Compiled>
    requires i <= |trace|
  {
    if i == 0 then Some(Compiled(EMPTY, []))
    else
      match Compile(trace, i - 1)
      case None => None
      case Some(before) =>
        match CompileEntry(before.state, trace[i - 1])
        case None => None
        case Some((c, e)) => Some(Compiled(c, before.code + [e]))
  }

  // -------------------------------------------------------------------- the two replays

  /** A call of the allocator and the block handed to it (0: nullptr, or none). */
  datatype Call = Call(kind: Kind, block: nat)

  datatype Status = Running | NoMemory | Replaced

  datatype Replay = Replay(ptrs: seq<nat>, calls: seq<Call>, status: Status)

  predicate Refused(e: Entry, block: nat)
  {
    block == 0 && (!e.kind.Realloc? || e.size > 0)
  }

  function Store(r: Replay, e: Entry, block: nat): Replay
    requires e.ptr < |r.ptrs|
  {
    if Refused(e, block) then r.(status := NoMemory)
    else if r.ptrs[e.ptr] != 0 then r.(status := Replaced)
    else r.(ptrs := r.ptrs[e.ptr := block])
  }

  predicate InBounds(e: Entry, n: nat)
  {
    && (Allocates(e) ==> e.ptr < n)
    && (DoesFree(e) ==> Released(e) - 1 < n)
  }

  /** One round of RunTrace's loop on a rewritten entry. */
  function RunEntry(r: Replay, e: Entry, block: nat): Replay
    requires InBounds(e, |r.ptrs|)
  {
    match e.kind
    case Malloc | Calloc | Memalign => Store(r.(calls := r.calls + [Call(e.kind, 0)]), e, block)
    case Realloc =>
      if e.oldPtr == 0 then Store(r.(calls := r.calls + [Call(Realloc, 0)]), e, block)
      else Store(r.(calls := r.calls + [Call(Realloc, r.ptrs[e.oldPtr - 1])],
                    ptrs := r.ptrs[e.oldPtr - 1 := 0]), e, block)
    case Free =>
      if e.ptr == 0 then r.(calls := r.calls + [Call(Free, 0)])
      else r.(calls := r.calls + [Call(Free, r.ptrs[e.ptr - 1])], ptrs := r.ptrs[e.ptr - 1 := 0])
    case ThreadDone => r
  }

  /** The reference: the same calls, made on a map from trace pointers to blocks. */
  datatype Reference = Reference(live: map<nat, nat>, calls: seq<Call>, status: Status)

  function RefEntry(r: Reference, e: Entry, block: nat): Reference
  {
    var p := Released(e);
    var arg := if DoesFree(e) && p in r.live then r.live[p] else 0;
    var r1 := if e.kind.ThreadDone? then r else r.(calls := r.calls + [Call(e.kind, arg)]);
    var r2 := if DoesFree(e) then r1.(live := r1.live - {p}) else r1;
    if !Allocates(e) then r2
    else if Refused(e, block) then r2.(status := NoMemory)
    else r2.(live := r2.live[e.ptr := block])
  }

  function RefRun(trace: seq<Entry>, results: seq<nat>, i: nat): Reference
    requires i <= |trace| == |results|
  {
    if i == 0 then Reference(map[], [], Running)
    else
      var r := RefRun(trace, results, i - 1);
      if r.status.Running? then RefEntry(r, trace[i - 1], results[i - 1]) else r
  }

  // ------------------------------------------------------------------- invariant

  /** Indices are handed out once: to one pointer, or to the stack of free ones. */
  ghost predicate CompilerOk(c: Compiler)
  {
    && (forall j :: 0 <= j < |c.free| ==> c.free[j] < c.num)
    && (forall j, l :: 0 <= j < l < |c.free| ==> c.free[j] != c.free[l])
    && (forall p :: p in c.index ==> c.index[p] < c.num && c.index[p] !in c.free)
    && (forall p, q :: p in c.index && q in c.index && p != q ==> c.index[p] != c.index[q])
  }

  /** The array holds at each pointer's index the pointer's block, and null at every free index. */
  ghost predicate Agree(c: Compiler, ptrs: seq<nat>, live: map<nat, nat>)
  {
    && c.num <= |ptrs|
    && c.index.Keys == live.Keys
    && (forall p :: p in c.index ==> c.index[p] < |ptrs| && ptrs[c.index[p]] == live[p])
    && (forall j :: 0 <= j < |ptrs| && (j in c.free || j >= c.num) ==> ptrs[j] == 0)
  }

  lemma AgreeAt(c: Compiler, ptrs: seq<nat>, live: map<nat, nat>)
    requires Agree(c, ptrs, live)
    ensures forall p :: p in c.index ==> p in live && c.index[p] < |ptrs| && ptrs[c.index[p]] == live[p]
  {
  }

  lemma UnbindAgrees(c: Compiler, ptrs: seq<nat>, live: map<nat, nat>, p: nat)
    requires CompilerOk(c) && Agree(c, ptrs, live) && p in c.index
    ensures var c' := Unbind(c, p);
            CompilerOk(c') && Agree(c', ptrs[c.index[p] := 0], live - {p})
  {
  }

  /** An index handed out belongs to nobody. */
  lemma GetIndexFresh(c: Compiler)
    requires CompilerOk(c)
    ensures var (idx, c') := GetIndex(c);
            && CompilerOk(c') && idx < c'.num && idx !in c'.free
            && (idx in c.free || idx == c.num)
            && (forall j :: j in c'.free || j >= c'.num ==> j in c.free || j >= c.num)
            && (forall p :: p in c.index ==> c.index[p] != idx)
  {
    var (idx, c') := GetIndex(c);
    if c.free != [] {
      assert idx in c.free;
      assert forall j :: j in c'.free ==> j in c.free;
    }
  }

  /** It therefore holds null, and nothing is replaced. */
  lemma BoundOnce(c: Compiler, p: nat, idx: nat)
    requires CompilerOk(c) && idx < c.num && idx !in c.free
    requires forall q :: q in c.index ==> c.index[q] != idx
    ensures CompilerOk(c.(index := c.index[p := idx]))
  {
  }

  lemma BindAgrees(c: Compiler, ptrs: seq<nat>, live: map<nat, nat>, e: Entry, block: nat)
    requires CompilerOk(c) && Agree(c, ptrs, live) && Bind(c, e).0.num <= |ptrs|
    ensures var (c', e') := Bind(c, e);
            && CompilerOk(c') && e'.ptr < |ptrs| && ptrs[e'.ptr] == 0
            && Agree(c', ptrs[e'.ptr := block], live[e.ptr := block])
  {
    hide CompilerOk;
    GetIndexFresh(c);
    var (idx, c1) := GetIndex(c);
    assert c1.index == c.index;
    hide GetIndex;
    var (c', e') := Bind(c, e);
    BoundOnce(c1, e.ptr, idx);
    var ptrs', live' := ptrs[idx := block], live[e.ptr := block];
    assert c'.index.Keys == live'.Keys;
    assert forall p :: p in c'.index ==> c'.index[p] < |ptrs'| && ptrs'[c'.index[p]] == live'[p];
    assert forall j :: 0 <= j < |ptrs'| && (j in c'.free || j >= c'.num) ==> j != idx && ptrs[j] == 0;
  }

  lemma NumGrows(c: Compiler, e: Entry)
    requires CompileEntry(c, e).Some?
    ensures CompileEntry(c, e).value.0.num >= c.num
  {
  }

  ghost predicate Matches(r: Replay, f: Reference, c: Compiler)
  {
    && r.calls == f.calls && r.status == f.status
    && (r.status.Running? ==> Agree(c, r.ptrs, f.live))
  }

  /** One rewritten entry does on the array what the original does on the map. */
  lemma EntryMatches(c: Compiler, e: Entry, r: Replay, f: Reference, block: nat)
    requires CompilerOk(c) && Matches(r, f, c) && r.status.Running?
    requires CompileEntry(c, e).Some? && CompileEntry(c, e).value.0.num <= |r.ptrs|
    ensures var (c', e') := CompileEntry(c, e).value;
            && CompilerOk(c') && InBounds(e', |r.ptrs|)
            && Matches(RunEntry(r, e', block), RefEntry(f, e, block), c')
  {
    hide CompilerOk, Agree;
    NumGrows(c, e);
    AgreeAt(c, r.ptrs, f.live);
    if DoesFree(e) {
      UnbindAgrees(c, r.ptrs, f.live, Released(e));
    }
    if Allocates(e) {
      if DoesFree(e) {
        BindAgrees(Unbind(c, e.oldPtr), r.ptrs[c.index[e.oldPtr] := 0], f.live - {e.oldPtr}, e.(oldPtr := c.index[e.oldPtr] + 1), block);
      } else {
        BindAgrees(c, r.ptrs, f.live, e, block);
      }
    }
    hide Unbind, Bind;
  }

  // --------------------------------------------------------------- whole traces

  ghost predicate AllInBounds(code: seq<Entry>, n: nat)
  {
    forall j :: 0 <= j < |code| ==> InBounds(code[j], n)
  }

  ghost function RunCode(code: seq<Entry>, results: seq<nat>, ptrs: seq<nat>, i: nat): (r: Replay)
    requires i <= |code| == |results| && AllInBounds(code, |ptrs|)
    ensures |r.ptrs| == |ptrs|
  {
    if i == 0 then Replay(ptrs, [], Running)
    else
      var r := RunCode(code, results, ptrs, i - 1);
      if r.status.Running? then RunEntry(r, code[i - 1], results[i - 1]) else r
  }

  lemma EntryInBounds(c: Compiler, e: Entry)
    requires CompilerOk(c) && CompileEntry(c, e).Some?
    ensures var (c', e') := CompileEntry(c, e).value; CompilerOk(c') && InBounds(e', c'.num) && c.num <= c'.num
  {
    var ptrs := seq(CompileEntry(c, e).value.0.num, _ => 0);
    NumGrows(c, e);
    var live := map p | p in c.index :: 0;
    EntryMatches(c, e, Replay(ptrs, [], Running), Reference(live, [], Running), 1);
  }

  /** The last round of the loop. */
  lemma CompileLast(trace: seq<Entry>, n: nat)
    requires 0 < n <= |trace| && Compile(trace, n).Some?
    ensures Compile(trace, n - 1).Some?
    ensures var (a, b) := (Compile(trace, n - 1).value, Compile(trace, n).value);
            && CompileEntry(a.state, trace[n - 1]).Some?
            && var (c, e) := CompileEntry(a.state, trace[n - 1]).value;
               b.state == c && b.code == a.code + [e]
  {
    hide CompileEntry;
  }

  lemma {:induction false} CompileSound(trace: seq<Entry>, n: nat)
    requires n <= |trace| && Compile(trace, n).Some?
    ensures var b := Compile(trace, n).value;
            |b.code| == n && CompilerOk(b.state) && AllInBounds(b.code, b.state.num)
  {
    if n > 0 {
      CompileLast(trace, n);
      hide Compile, CompileEntry, InBounds, CompilerOk;
      CompileSound(trace, n - 1);
      var a, b := Compile(trace, n - 1).value, Compile(trace, n).value;
      EntryInBounds(a.state, trace[n - 1]);
      BoundsGrow(a.code, a.state.num, b.state.num);
    }
  }

  /** Every shorter part of an accepted trace is accepted, with a shorter part of the code. */
  lemma {:induction false} CompileParts(trace: seq<Entry>, i: nat, n: nat)
    requires i <= n <= |trace| && Compile(trace, n).Some?
    ensures Compile(trace, i).Some?
    ensures var (a, b) := (Compile(trace, i).value, Compile(trace, n).value);
            && |b.code| == n && a.code == b.code[..i]
            && a.state.num <= b.state.num && CompilerOk(a.state)
            && AllInBounds(a.code, a.state.num)
    decreases n
  {
    hide Compile, CompileEntry, InBounds, CompilerOk, AllInBounds;
    CompileSound(trace, n);
    var code := Compile(trace, n).value.code;
    if i < n {
      CompileLast(trace, n);
      CompileParts(trace, i, n - 1);
      NumGrows(Compile(trace, n - 1).value.state, trace[n - 1]);
      assert forall j :: 0 <= j < i ==> Compile(trace, i).value.code[j] == code[j];
    } else {
      assert code[..n] == code;
    }
  }

  lemma BoundsGrow(code: seq<Entry>, n: nat, m: nat)
    requires AllInBounds(code, n) && n <= m
    ensures AllInBounds(code, m)
  {
  }

  /** Both replays make the same calls on the same blocks, and end the same way. */
  lemma {:induction false} RunsMatch(trace: seq<Entry>, results: seq<nat>, i: nat)
    requires i <= |trace| == |results| && Compile(trace, |trace|).Some?
    ensures Compile(trace, i).Some?
    ensures var k := Compile(trace, |trace|).value;
            && |k.code| == |trace| && AllInBounds(k.code, k.state.num)
            && Matches(RunCode(k.code, results, Nulls(k.state.num), i), RefRun(trace, results, i), Compile(trace, i).value.state)
  {
    hide Compile, CompileEntry, InBounds, CompilerOk, RunEntry, RefEntry, AllInBounds, Agree, Nulls, RefRun, RunCode;
    var k := Compile(trace, |trace|).value;
    CompileParts(trace, |trace|, |trace|);
    CompileParts(trace, i, |trace|);
    assert k.code[..|trace|] == k.code;
    NullsLength(k.state.num);
    if i == 0 {
      RunsStart(trace, results, k.code, k.state.num);
    } else {
      RunsMatch(trace, results, i - 1);
      CompileParts(trace, i - 1, |trace|);
      CompileLast(trace, i);
      assert k.code[i - 1] == Compile(trace, i).value.code[i - 1];
      RunsStep(Compile(trace, i - 1).value.state, trace, results, k.code, k.state.num, i);
    }
  }

  lemma NullsLength(n: nat)
    ensures |Nulls(n)| == n
  {
  }

  lemma RunsStart(trace: seq<Entry>, results: seq<nat>, code: seq<Entry>, n: nat)
    requires |code| == |trace| == |results| && AllInBounds(code, n) && |Nulls(n)| == n
    ensures Compile(trace, 0).Some?
    ensures Matches(RunCode(code, results, Nulls(n), 0), RefRun(trace, results, 0), Compile(trace, 0).value.state)
  {
  }

  lemma RunsStep(c: Compiler, trace: seq<Entry>, results: seq<nat>, code: seq<Entry>, n: nat, i: nat)
    requires |code| == |trace| == |results| && AllInBounds(code, n) && |Nulls(n)| == n && 0 < i <= |trace| && CompilerOk(c)
    requires CompileEntry(c, trace[i - 1]).Some? && CompileEntry(c, trace[i - 1]).value.0.num <= n
    requires code[i - 1] == CompileEntry(c, trace[i - 1]).value.1
    requires Matches(RunCode(code, results, Nulls(n), i - 1), RefRun(trace, results, i - 1), c)
    ensures Matches(RunCode(code, results, Nulls(n), i), RefRun(trace, results, i), CompileEntry(c, trace[i - 1]).value.0)
  {
    hide CompileEntry, InBounds, CompilerOk, RunEntry, RefEntry, Agree, Nulls;
    var r := RunCode(code, results, Nulls(n), i - 1);
    if r.status.Running? {
      EntryMatches(c, trace[i - 1], r, RefRun(trace, results, i - 1), results[i - 1]);
    }
  }

  ghost function Nulls(n: nat): seq<nat>
  {
    seq(n, _ => 0)
  }

  // -------------------------------------------------- how many indices are needed

  /** No index is lost: each one is free or bound, and the bound pointers are the live ones. */
  ghost predicate Tight(c: Compiler, live: map<nat, nat>)
  {
    c.index.Keys == live.Keys && |c.free| + |c.index| == c.num
  }

  lemma UnbindTight(c: Compiler, live: map<nat, nat>, p: nat)
    requires Tight(c, live) && p in c.index
    ensures Tight(Unbind(c, p), live - {p}) && |live - {p}| == |live| - 1
  {
    var c', live' := Unbind(c, p), live - {p};
    assert c'.index.Keys == c.index.Keys - {p};
    assert live'.Keys == live.Keys - {p};
  }

  lemma BindTight(c: Compiler, live: map<nat, nat>, e: Entry, i: nat)
    requires Tight(c, live) && e.ptr !in live
    ensures Tight(Bind(c, e).0, live[e.ptr := i]) && Bind(c, e).0.num == Max(c.num, |live[e.ptr := i]|)
  {
    var c', live' := Bind(c, e).0, live[e.ptr := i];
    assert c'.index.Keys == c.index.Keys + {e.ptr};
    assert live'.Keys == live.Keys + {e.ptr};
    assert |c.index| == |c.index.Keys| == |live.Keys| == |live|;
  }

  lemma TightStep(c: Compiler, live: map<nat, nat>, e: Entry, i: nat)
    requires Tight(c, live) && EntryOk(live, e)
    ensures CompileEntry(c, e).Some?
    ensures var c' := CompileEntry(c, e).value.0;
            && Tight(c', LiveStep(live, e, i))
            && c'.num == Max(c.num, |LiveStep(live, e, i)|)
  {
    assert |c.index.Keys| == |live.Keys|;
    if DoesFree(e) {
      UnbindTight(c, live, Released(e));
      if Allocates(e) {
        BindTight(Unbind(c, e.oldPtr), live - {e.oldPtr}, e.(oldPtr := c.index[e.oldPtr] + 1), i);
      }
    } else if Allocates(e) {
      BindTight(c, live, e, i);
    }
    hide Bind, Unbind;
  }

  /** A well-formed trace is accepted, and num_ptrs is the number GetMaxAllocs computes. */
  lemma {:induction false} NumPtrsIsMaxLive(trace: seq<Entry>, i: nat)
    requires WellFormed(trace) && i <= |trace|
    ensures Compile(trace, i).Some?
    ensures Tight(Compile(trace, i).value.state, Live(trace, i))
    ensures Compile(trace, i).value.state.num == MaxLive(trace, i)
  {
    if i > 0 {
      NumPtrsIsMaxLive(trace, i - 1);
      assert EntryOk(Live(trace, i - 1), trace[i - 1]);
      TightStep(Compile(trace, i - 1).value.state, Live(trace, i - 1), trace[i - 1], i - 1);
      hide WellFormed, EntryOk, CompileEntry, LiveStep, Tight;
    }
  }

  // ------------------------------------------------------- every block is given back

  ghost function NonNull(blocks: seq<nat>): multiset<nat>
  {
    multiset(blocks)[0 := 0]
  }

  ghost function Handed(calls: seq<Call>): multiset<nat>
  {
    if calls == [] then multiset{}
    else Handed(calls[..|calls| - 1]) + NonNull([calls[|calls| - 1].block])
  }

  ghost function Obtained(trace: seq<Entry>, results: seq<nat>, i: nat): multiset<nat>
    requires i <= |trace| == |results|
  {
    if i == 0 then multiset{}
    else Obtained(trace, results, i - 1) + if Allocates(trace[i - 1]) then NonNull([results[i - 1]]) else multiset{}
  }

  lemma NonNullUpdate(s: seq<nat>, k: nat, v: nat)
    requires k < |s|
    ensures NonNull(s[k := v]) + NonNull([s[k]]) == NonNull(s) + NonNull([v])
  {
    assert multiset(s[k := v]) == multiset(s) - multiset{s[k]} + multiset{v};
  }

  lemma NonNullMore(s: seq<nat>, i: nat)
    requires i < |s|
    ensures NonNull(s[..i + 1]) == NonNull(s[..i]) + if s[i] != 0 then multiset{s[i]} else multiset{}
  {
    assert s[..i + 1] == s[..i] + [s[i]];
  }

  lemma HandedOne(calls: seq<Call>, c: Call)
    ensures Handed(calls + [c]) == Handed(calls) + NonNull([c.block])
  {
    assert (calls + [c])[..|calls|] == calls;
  }

  /** What a running step takes out of the array. */
  ghost function Taken(r: Replay, e: Entry): nat
    requires InBounds(e, |r.ptrs|)
  {
    if DoesFree(e) then r.ptrs[Released(e) - 1] else 0
  }

  ghost function AfterTaking(r: Replay, e: Entry): (ptrs: seq<nat>)
    requires InBounds(e, |r.ptrs|)
    ensures |ptrs| == |r.ptrs|
  {
    if DoesFree(e) then r.ptrs[Released(e) - 1 := 0] else r.ptrs
  }

  lemma EntryEffect(r: Replay, e: Entry, block: nat)
    requires InBounds(e, |r.ptrs|) && RunEntry(r, e, block).status.Running?
    ensures var r' := RunEntry(r, e, block);
            && r'.calls == (if e.kind.ThreadDone? then r.calls else r.calls + [Call(e.kind, Taken(r, e))])
            && r'.ptrs == (if Allocates(e) then AfterTaking(r, e)[e.ptr := block] else AfterTaking(r, e))
            && (Allocates(e) ==> AfterTaking(r, e)[e.ptr] == 0)
  {
  }

  lemma TakingConserves(r: Replay, e: Entry)
    requires InBounds(e, |r.ptrs|)
    ensures NonNull(AfterTaking(r, e)) + NonNull([Taken(r, e)]) == NonNull(r.ptrs)
  {
    NullIsNothing();
    if DoesFree(e) {
      NonNullUpdate(r.ptrs, Released(e) - 1, 0);
    }
    hide NonNull;
  }

  /** A step gives back what it takes out of the array and puts in what it obtains. */
  lemma EntryConserves(r: Replay, e: Entry, block: nat)
    requires InBounds(e, |r.ptrs|) && RunEntry(r, e, block).status.Running?
    ensures var r' := RunEntry(r, e, block);
            Handed(r'.calls) + NonNull(r'.ptrs)
            == Handed(r.calls) + NonNull(r.ptrs) + if Allocates(e) then NonNull([block]) else multiset{}
  {
    hide NonNull, Handed, RunEntry, Taken, AfterTaking;
    EntryEffect(r, e, block);
    TakingConserves(r, e);
    NullIsNothing();
    var r', taken, rest := RunEntry(r, e, block), NonNull([Taken(r, e)]), NonNull(AfterTaking(r, e));
    if e.kind.ThreadDone? {
      TakesNothing(r, e);
    } else {
      HandedOne(r.calls, Call(e.kind, Taken(r, e)));
    }
    assert Handed(r'.calls) == Handed(r.calls) + taken;
    if Allocates(e) {
      NonNullUpdate(AfterTaking(r, e), e.ptr, block);
      assert NonNull(r'.ptrs) == rest + NonNull([block]);
      Shuffle(Handed(r.calls), taken, rest, NonNull([block]));
    } else {
      Shuffle(Handed(r.calls), taken, rest, multiset{});
    }
  }

  lemma TakesNothing(r: Replay, e: Entry)
    requires InBounds(e, |r.ptrs|) && e.kind.ThreadDone?
    ensures NonNull([Taken(r, e)]) == multiset{}
  {
  }

  lemma Shuffle(h: multiset<nat>, t: multiset<nat>, q: multiset<nat>, b: multiset<nat>)
    ensures (h + t) + (q + b) == h + (q + t) + b
  {
  }

  lemma NullIsNothing()
    ensures NonNull([0]) == multiset{}
  {
  }

  lemma {:induction false} RunConserves(code: seq<Entry>, results: seq<nat>, ptrs: seq<nat>, i: nat)
    requires i <= |code| == |results| && AllInBounds(code, |ptrs|)
    requires RunCode(code, results, ptrs, i).status.Running?
    ensures var r := RunCode(code, results, ptrs, i);
            Handed(r.calls) + NonNull(r.ptrs) == NonNull(ptrs) + Obtained(code, results, i)
  {
    if i > 0 {
      RunConserves(code, results, ptrs, i - 1);
      hide Handed, NonNull, RunEntry;
      EntryConserves(RunCode(code, results, ptrs, i - 1), code[i - 1], results[i - 1]);
    }
  }

  // -------------------------------------------------------------------- the loops

  /** Rewrites the entries in place; None stands for the two error exits. */
  method GetTraceData(entries: array<Entry>) returns (numPtrs: Option<nat>)
    modifies entries
    ensures var c := Compile(old(entries[..]), entries.Length);
            && (numPtrs.Some? <==> c.Some?)
            && (c.Some? ==> numPtrs.value == c.value.state.num && entries[..] == c.value.code)
  {
    ghost var trace := entries[..];
    var free: seq<nat>, index: map<nat, nat>, num: nat := [], map[], 0;
    hide CompileEntry;
    for i := 0 to entries.Length
      invariant Compile(trace, i) == Some(Compiled(Compiler(free, index, num), entries[..i]))
      invariant forall j :: i <= j < entries.Length ==> entries[j] == trace[j]
    {
      ghost var c := Compiler(free, index, num);
      ghost var before := entries[..i];
      var e := entries[i];
      var e', known := e, true;
      free, index, num, e', known := Rewrite(free, index, num, e);
      if !known {
        assert Compile(trace, i + 1) == None;
        NotAccepted(trace, i + 1, entries.Length);
        return None;
      }
      entries[i] := e';
      assert entries[..i + 1] == before + [e'];
    }
    return Some(num);
  }

  /** The switch of GetTraceData on one entry. */
  method Rewrite(free0: seq<nat>, index0: map<nat, nat>, num0: nat, e0: Entry)
    returns (free: seq<nat>, index: map<nat, nat>, num: nat, e: Entry, known: bool)
    ensures known <==> CompileEntry(Compiler(free0, index0, num0), e0).Some?
    ensures known ==> CompileEntry(Compiler(free0, index0, num0), e0) == Some((Compiler(free, index, num), e))
  {
    free, index, num, e, known := free0, index0, num0, e0, true;
    if DoesFree(e) {
      var p := Released(e);
      if p !in index {
        return free, index, num, e, false;
      }
      free := free + [index[p]];
      e := if e.kind.Free? then e.(ptr := index[p] + 1) else e.(oldPtr := index[p] + 1);
      index := index - {p};
    }
    if Allocates(e) {
      var idx;
      if free == [] {
        idx, num := num, num + 1;
      } else {
        idx, free := free[|free| - 1], free[..|free| - 1];
      }
      index := index[e.ptr := idx];
      e := e.(ptr := idx);
    }
  }

  lemma {:induction false} NotAccepted(trace: seq<Entry>, i: nat, n: nat)
    requires i <= n <= |trace| && Compile(trace, i).None?
    ensures Compile(trace, n).None?
  {
    if i < n {
      NotAccepted(trace, i, n - 1);
    }
  }

  /**
   * Replays the rewritten trace, then frees what is left. Unless the allocator refused,
   * every slot is null afterwards and what FreePtrs freed is what the replay had left there.
   */
  method RunTrace(code: seq<Entry>, results: seq<nat>, ptrs: array<nat>)
    returns (status: Status, calls: seq<Call>, rest: seq<nat>)
    requires |results| == |code| && AllInBounds(code, ptrs.Length)
    modifies ptrs
    ensures var r := RunCode(code, results, old(ptrs[..]), |code|);
            && status == r.status && calls == r.calls
            && (status.Running? ==> multiset(rest) == NonNull(r.ptrs) && 0 !in rest)
    ensures status.Running? ==> forall j :: 0 <= j < ptrs.Length ==> ptrs[j] == 0
  {
    ghost var ptrs0 := ptrs[..];
    status, calls, rest := Running, [], [];
    for i := 0 to |code|
      invariant status.Running? && RunCode(code, results, ptrs0, i) == Replay(ptrs[..], calls, status)
    {
      status, calls := RunOne(code[i], results[i], ptrs, calls);
      if !status.Running? {
        StopsThere(code, results, ptrs0, i + 1, |code|);
        return;
      }
    }
    rest := FreePtrs(ptrs);
  }

  lemma {:induction false} StopsThere(code: seq<Entry>, results: seq<nat>, ptrs: seq<nat>, i: nat, n: nat)
    requires i <= n <= |code| == |results| && AllInBounds(code, |ptrs|)
    requires !RunCode(code, results, ptrs, i).status.Running?
    ensures RunCode(code, results, ptrs, n) == RunCode(code, results, ptrs, i)
  {
    if i < n {
      StopsThere(code, results, ptrs, i, n - 1);
    }
  }

  /** The switch of RunTrace on one entry. */
  method RunOne(e: Entry, block: nat, ptrs: array<nat>, calls0: seq<Call>) returns (status: Status, calls: seq<Call>)
    requires InBounds(e, ptrs.Length)
    modifies ptrs
    ensures RunEntry(Replay(old(ptrs[..]), calls0, Running), e, block) == Replay(ptrs[..], calls, status)
  {
    status, calls := Running, calls0;
    if e.kind.ThreadDone? {
      return;
    }
    var arg := 0;
    if DoesFree(e) {
      arg := ptrs[Released(e) - 1];
      ptrs[Released(e) - 1] := 0;
    }
    calls := calls + [Call(e.kind, arg)];
    if Allocates(e) {
      if Refused(e, block) {
        return NoMemory, calls;
      }
      if ptrs[e.ptr] != 0 {
        return Replaced, calls;
      }
      ptrs[e.ptr] := block;
    }
  }

  method FreePtrs(ptrs: array<nat>) returns (freed: seq<nat>)
    modifies ptrs
    ensures multiset(freed) == NonNull(old(ptrs[..])) && 0 !in freed
    ensures forall j :: 0 <= j < ptrs.Length ==> ptrs[j] == 0
  {
    ghost var ptrs0 := ptrs[..];
    freed := [];
    assert multiset(freed) == NonNull(ptrs0[..0]);
    hide NonNull;
    for i := 0 to ptrs.Length
      invariant forall j :: 0 <= j < i ==> ptrs[j] == 0
      invariant forall j :: i <= j < ptrs.Length ==> ptrs[j] == ptrs0[j]
      invariant forall j :: 0 <= j < |freed| ==> freed[j] != 0
      invariant multiset(freed) == NonNull(ptrs0[..i])
    {
      NonNullMore(ptrs0, i);
      var p := ptrs[i];
      if p != 0 {
        freed := freed + [p];
        ptrs[i] := 0;
      }
    }
    assert ptrs0[..ptrs.Length] == ptrs0;
  }

  /**
   * A run made the calls of the reference and, unless memory ran out, what was handed back during the
   * run and after it is what was obtained.
   */
  ghost predicate LikeReference(trace: seq<Entry>, results: seq<nat>, calls: seq<Call>, rest: seq<nat>)
  {
    && |results| == |trace|
    && var f := RefRun(trace, results, |trace|);
       && calls == f.calls
       && (f.status.Running? ==> Handed(calls) + multiset(rest) == Obtained(trace, results, |trace|))
  }

  /** One run of the compiled trace, on slots that are all null. */
  method RunAgain(ghost trace: seq<Entry>, code: seq<Entry>, results: seq<nat>, ptrs: array<nat>)
    returns (status: Status, calls: seq<Call>, rest: seq<nat>)
    requires |results| == |trace| && Compile(trace, |trace|).Some? && code == Compile(trace, |trace|).value.code
    requires ptrs.Length == Compile(trace, |trace|).value.state.num && forall j :: 0 <= j < ptrs.Length ==> ptrs[j] == 0
    modifies ptrs
    ensures var f := RefRun(trace, results, |trace|);
            status == f.status && !status.Replaced? && LikeReference(trace, results, calls, rest)
    ensures status.Running? ==> forall j :: 0 <= j < ptrs.Length ==> ptrs[j] == 0
  {
    hide Compile, RefRun, RunCode, Handed, Obtained, NonNull, AllInBounds;
    assert ptrs[..] == Nulls(ptrs.Length);
    IndexedReplayIsFaithful(trace, results);
    SameObtained(trace, results, |trace|);
    status, calls, rest := RunTrace(code, results, ptrs);
  }

  /**
   * The benchmark: one compilation, any number of runs. Each run calls the allocator exactly as
   * the reference does, never finds a slot taken, and gives back every block it got.
   */
  method BenchmarkTrace(entries: array<Entry>, results: seq<seq<nat>>)
    returns (ok: bool, runs: seq<seq<Call>>, rests: seq<seq<nat>>)
    requires forall k :: 0 <= k < |results| ==> |results[k]| == entries.Length
    modifies entries
    ensures ok <==> Compile(old(entries[..]), entries.Length).Some?
    ensures |runs| == |rests| <= |results|
    ensures forall k :: 0 <= k < |runs| ==> LikeReference(old(entries[..]), results[k], runs[k], rests[k])
    ensures ok && |runs| < |results| ==>
              |runs| > 0 && RefRun(old(entries[..]), results[|runs| - 1], entries.Length).status.NoMemory?
  {
    hide Compile, RefRun, LikeReference, CompilerOk, AllInBounds;
    ghost var trace := entries[..];
    var num := GetTraceData(entries);
    ok, runs, rests := num.Some?, [], [];
    if num.None? {
      return;
    }
    var ptrs := new nat[num.value](_ => 0);
    var code := entries[..];
    for k := 0 to |results|
      invariant |runs| == |rests| == k
      invariant forall j :: 0 <= j < k ==> LikeReference(trace, results[j], runs[j], rests[j])
      invariant forall j :: 0 <= j < ptrs.Length ==> ptrs[j] == 0
    {
      var status, calls, rest := RunAgain(trace, code, results[k], ptrs);
      runs, rests := runs + [calls], rests + [rest];
      if !status.Running? {
        return;
      }
    }
  }

  /** The rewritten trace allocates where the trace does. */
  lemma {:induction false} SameObtained(trace: seq<Entry>, results: seq<nat>, i: nat)
    requires |results| == |trace| && i <= |trace| && Compile(trace, |trace|).Some?
    ensures var code := Compile(trace, |trace|).value.code;
            |code| == |trace| && Obtained(code, results, i) == Obtained(trace, results, i)
  {
    hide Compile, CompileEntry;
    CompileParts(trace, i, |trace|);
    if i > 0 {
      SameObtained(trace, results, i - 1);
      CompileParts(trace, i - 1, |trace|);
      CompileLast(trace, i);
      SameKind(Compile(trace, i - 1).value.state, trace[i - 1]);
      var part, code := Compile(trace, i).value.code, Compile(trace, |trace|).value.code;
      assert code[..i][i - 1] == code[i - 1] == part[i - 1];
    }
  }

  lemma SameKind(c: Compiler, e: Entry)
    requires CompileEntry(c, e).Some?
    ensures Allocates(CompileEntry(c, e).value.1) == Allocates(e)
  {
  }

  lemma {:induction false} RefNeverReplaces(trace: seq<Entry>, results: seq<nat>, i: nat)
    requires i <= |trace| == |results|
    ensures !RefRun(trace, results, i).status.Replaced?
  {
    if i > 0 {
      RefNeverReplaces(trace, results, i - 1);
    }
  }

  /**
   * For every trace the compiler accepts and whatever the allocator returns: the rewritten trace
   * makes the calls of the reference, no slot is ever found taken, and the blocks handed back
   * together with those FreePtrs will find are exactly the blocks obtained.
   */
  lemma IndexedReplayIsFaithful(trace: seq<Entry>, results: seq<nat>)
    requires |results| == |trace| && Compile(trace, |trace|).Some?
    ensures var k := Compile(trace, |trace|).value;
            && |k.code| == |trace| && AllInBounds(k.code, k.state.num)
            && var r, f := RunCode(k.code, results, Nulls(k.state.num), |trace|), RefRun(trace, results, |trace|);
               && r.calls == f.calls && r.status == f.status && !r.status.Replaced?
               && (r.status.Running? ==> Handed(r.calls) + NonNull(r.ptrs) == Obtained(k.code, results, |trace|))
  {
    var k := Compile(trace, |trace|).value;
    hide Compile, Agree, RefRun, Handed, Obtained;
    RunsMatch(trace, results, |trace|);
    RefNeverReplaces(trace, results, |trace|);
    if RunCode(k.code, results, Nulls(k.state.num), |trace|).status.Running? {
      hide RunCode;
      RunConserves(k.code, results, Nulls(k.state.num), |trace|);
      assert NonNull(Nulls(k.state.num)) == multiset{} by { NullsAreNothing(k.state.num); }
    }
  }

  lemma NullsAreNothing(n: nat)
    ensures NonNull(Nulls(n)) == multiset{}
  {
    assert forall x :: x in NonNull(Nulls(n)) ==> x in Nulls(n);
  }

  // --------------------------------------------------- what the reference does, in the trace's terms

  /** What the compiler demands of entry i: the pointer it gives back is live. */
  ghost predicate NamesLive(trace: seq<Entry>, i: nat)
    requires i < |trace|
  {
    && (trace[i].kind == Free && trace[i].ptr != 0 ==> trace[i].ptr in Live(trace, i))
    && (trace[i].kind == Realloc && trace[i].oldPtr != 0 ==> trace[i].oldPtr in Live(trace, i))
  }

  /** A trace is accepted exactly if every entry that gives a pointer back names a live one. */
  lemma {:induction false} AcceptedIff(trace: seq<Entry>, n: nat)
    requires n <= |trace|
    ensures Compile(trace, n).Some? <==> forall i :: 0 <= i < n ==> NamesLive(trace, i)
    ensures Compile(trace, n).Some? ==> Compile(trace, n).value.state.index.Keys == Live(trace, n).Keys
  {
    if n > 0 {
      AcceptedIff(trace, n - 1);
      if Compile(trace, n - 1).Some? {
        AcceptStep(Compile(trace, n - 1).value.state, Live(trace, n - 1), trace, n - 1);
      }
      hide CompileEntry, LiveStep, NamesLive;
    }
  }

  lemma AcceptStep(c: Compiler, live: map<nat, nat>, trace: seq<Entry>, i: nat)
    requires i < |trace| && live == Live(trace, i) && c.index.Keys == live.Keys
    ensures CompileEntry(c, trace[i]).Some? <==> NamesLive(trace, i)
    ensures CompileEntry(c, trace[i]).Some? ==> CompileEntry(c, trace[i]).value.0.index.Keys == LiveStep(live, trace[i], i).Keys
  {
  }

  /** The block that the latest allocation of p before entry k got. */
  ghost function BlockOf(trace: seq<Entry>, results: seq<nat>, k: nat, p: nat): nat
    requires k <= |trace|
  {
    if p != 0 && p in Live(trace, k) && Live(trace, k)[p] < |results| then results[Live(trace, k)[p]] else 0
  }

  /** One call for every entry but ThreadDone, with the block of the pointer that the entry gives back. */
  ghost function CallsOf(trace: seq<Entry>, results: seq<nat>, n: nat): seq<Call>
    requires n <= |trace|
  {
    if n == 0 then []
    else
      var e := trace[n - 1];
      CallsOf(trace, results, n - 1)
      + match e.kind
        case ThreadDone => []
        case Free => [Call(Free, BlockOf(trace, results, n - 1, e.ptr))]
        case Realloc => [Call(Realloc, BlockOf(trace, results, n - 1, e.oldPtr))]
        case _ => [Call(e.kind, 0)]
  }

  /** The allocator gave nothing for entry k; realloc may do so when asked for no bytes. */
  ghost predicate OutOfMemory(trace: seq<Entry>, results: seq<nat>, k: nat)
    requires k < |trace| == |results|
  {
    var e := trace[k];
    results[k] == 0 && (e.kind == Malloc || e.kind == Calloc || e.kind == Memalign || (e.kind == Realloc && e.size > 0))
  }

  /**
   * The reference stops exactly if the allocator refuses. Until then its calls are those of the
   * entries, in order, each on the block of the latest allocation of the pointer it gives back.
   */
  lemma {:induction false} ReferenceMeans(trace: seq<Entry>, results: seq<nat>, n: nat)
    requires n <= |trace| == |results|
    ensures var f := RefRun(trace, results, n);
            && f.status == (if exists k :: 0 <= k < n && OutOfMemory(trace, results, k) then NoMemory else Running)
            && (f.status.Running? ==>
                  && f.calls == CallsOf(trace, results, n) && f.live.Keys == Live(trace, n).Keys
                  && forall p :: p in f.live ==> Live(trace, n)[p] < n && f.live[p] == results[Live(trace, n)[p]])
  {
    hide RefEntry, OutOfMemory, CallsOf, Live;
    if n > 0 {
      ReferenceMeans(trace, results, n - 1);
      var f := RefRun(trace, results, n - 1);
      if f.status.Running? {
        RefStatus(f, trace, results, n - 1);
        if !OutOfMemory(trace, results, n - 1) {
          RefStep(f, trace, results, n - 1);
        }
      }
    } else {
      RefStart(trace, results);
    }
  }

  lemma RefStart(trace: seq<Entry>, results: seq<nat>)
    ensures CallsOf(trace, results, 0) == [] && Live(trace, 0) == map[]
  {
  }

  lemma RefStatus(f: Reference, trace: seq<Entry>, results: seq<nat>, i: nat)
    requires f.status.Running? && i < |trace| == |results|
    ensures RefEntry(f, trace[i], results[i]).status == if OutOfMemory(trace, results, i) then NoMemory else Running
  {
  }

  lemma RefStep(f: Reference, trace: seq<Entry>, results: seq<nat>, i: nat)
    requires i < |trace| == |results| && f.calls == CallsOf(trace, results, i) && f.live.Keys == Live(trace, i).Keys
    requires forall p :: p in f.live ==> Live(trace, i)[p] < i && f.live[p] == results[Live(trace, i)[p]]
    requires !OutOfMemory(trace, results, i)
    ensures var g := RefEntry(f, trace[i], results[i]);
            && g.calls == CallsOf(trace, results, i + 1) && g.live.Keys == Live(trace, i + 1).Keys
            && forall p :: p in g.live ==> Live(trace, i + 1)[p] < i + 1 && g.live[p] == results[Live(trace, i + 1)[p]]
  {
    var e := trace[i];
    assert Live(trace, i + 1) == LiveStep(Live(trace, i), e, i);
    hide Live;
  }
}
