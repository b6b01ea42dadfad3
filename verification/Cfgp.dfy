// Configuration parameters: the data list, the set/block scan and the save format of
// lib/ipmi_cfgp.c.
module Cfgp {
  import opened Bytes

  datatype Access = ReadWrite | ReadOnly | WriteOnly | Reserved

  // struct ipmi_cfgp; the four one-bit traits as booleans and numbers.
  datatype Param = Param(name: Option<string>, size: nat, access: Access,
                         isSet: bool, firstSet: nat, hasBlocks: bool, firstBlock: nat)

  datatype Selector = Selector(param: int, setSel: int, blockSel: int)

  datatype Item = Item(sel: Selector, data: seq<int>)

  // What the handler answers to a get: data, or a non-zero error code.
  type errorCode = x: int | x != 0 witness 1
  datatype Reply = Good(data: seq<int>) | Bad(code: errorCode)
  type Handler = (nat, int, int) -> Reply

  // ---- the scan of one parameter, call by call ----

  // allocs is how many more allocations will succeed, so every run is finite.
  datatype Result = Result(items: seq<Item>, calls: nat, ret: int)

  // The fixed part of a scan: parameter idx, and set and block after "not applicable"
  // was replaced by 0; -1 means all.
  datatype Query = Query(idx: nat, p: Param, setSel: int, blockSel: int)

  function QueryOf(idx: nat, p: Param, setSel: int, blockSel: int): Query {
    Query(idx, p,
          if setSel == -1 && !p.isSet then 0 else setSel,
          if blockSel == -1 && !p.hasBlocks then 0 else blockSel)
  }

  function StartBlock(q: Query): int {
    if q.blockSel == -1 then q.p.firstBlock else q.blockSel
  }

  function StartSet(q: Query): int {
    if q.setSel == -1 then q.p.firstSet else q.setSel
  }

  function Cons(items: seq<Item>, r: Result): Result {
    Result(items + r.items, 1 + r.calls, r.ret)
  }

  // The rest of the scan from set cset and block cblock on.
  function Scan(h: Handler, q: Query, cset: int, cblock: int, quiet: bool, allocs: nat): (r: Result)
    ensures r.calls <= allocs
    decreases allocs
  {
    if allocs == 0 then Result([], 0, -1)
    else match h(q.idx, cset, cblock)
      case Bad(code) =>
        if !quiet then Result([], 1, code)
        else if cblock == q.p.firstBlock || q.setSel != -1 then Result([], 1, 0)
        else Cons([], Scan(h, q, cset + 1, StartBlock(q), quiet, allocs - 1))
      case Good(d) =>
        var item := [Item(Selector(q.idx, cset, cblock), d)];
        if q.blockSel == -1 then Cons(item, Scan(h, q, cset, cblock + 1, true, allocs - 1))
        else if q.setSel == -1 then Cons(item, Scan(h, q, cset + 1, StartBlock(q), true, allocs - 1))
        else Result(item, 1, 0)
  }

  // cfgp_get_param as a function.
  function GetParam(h: Handler, idx: nat, p: Param, setSel: int, blockSel: int, quiet: bool, allocs: nat): (r: Result)
    ensures r.calls <= allocs
  {
    if p.size == 0 then Result([], 0, -1)
    else
      var q := QueryOf(idx, p, setSel, blockSel);
      Scan(h, q, StartSet(q), StartBlock(q), quiet, allocs)
  }

  // Where a scan starts: at the selectors given; where -1 stands for all, at the first set
  // or block, and where they do not apply, at 0. An error there is reported unless the
  // scan is quiet.
  lemma ScanStarts(h: Handler, idx: nat, p: Param, setSel: int, blockSel: int, quiet: bool, allocs: nat)
    requires p.size > 0 && allocs > 0
    ensures var set0 := if setSel != -1 then setSel else if p.isSet then p.firstSet else 0;
      var block0 := if blockSel != -1 then blockSel else if p.hasBlocks then p.firstBlock else 0;
      var r := GetParam(h, idx, p, setSel, blockSel, quiet, allocs);
      match h(idx, set0, block0)
      case Good(d) => r.items != [] && r.items[0] == Item(Selector(idx, set0, block0), d)
      case Bad(code) => !quiet ==> r == Result([], 1, code)
  {
  }

  // ---- what a scan finds on a finite domain ----

  // Blocks b, b + 1, ... (n of them) of one set.
  function BlockRun(h: Handler, idx: nat, setSel: int, b: int, n: nat): (items: seq<Item>)
    requires forall j :: b <= j < b + n ==> h(idx, setSel, j).Good?
    ensures |items| == n
    decreases n
  {
    if n == 0 then [] else [Item(Selector(idx, setSel, b), h(idx, setSel, b).data)] + BlockRun(h, idx, setSel, b + 1, n - 1)
  }

  // The handler succeeds on n consecutive blocks of a set and, if blocks are scanned,
  // fails on the next one.
  ghost predicate SetHas(h: Handler, q: Query, setSel: int, n: nat) {
    && (forall j :: StartBlock(q) <= j < StartBlock(q) + n ==> h(q.idx, setSel, j).Good?)
    && (if q.blockSel == -1 then h(q.idx, setSel, StartBlock(q) + n).Bad? else n <= 1)
    && (n == 0 ==> h(q.idx, setSel, StartBlock(q)).Bad?)
  }

  // Consecutive sets with sizes[0], sizes[1], ... blocks, none of them empty, and then,
  // if sets are scanned, a set that fails at once.
  ghost predicate Domain(h: Handler, q: Query, setSel: int, sizes: seq<nat>)
    decreases |sizes|
  {
    if sizes == [] then SetHas(h, q, setSel, 0)
    else
      && sizes[0] > 0 && SetHas(h, q, setSel, sizes[0])
      && (if q.setSel == -1 then Domain(h, q, setSel + 1, sizes[1..]) else |sizes| == 1)
  }

  // The domain's elements in lexicographic order.
  ghost function Elements(h: Handler, q: Query, setSel: int, sizes: seq<nat>): seq<Item>
    requires Domain(h, q, setSel, sizes)
    decreases |sizes|
  {
    if sizes == [] then []
    else
      var rest := if q.setSel == -1 then Elements(h, q, setSel + 1, sizes[1..]) else [];
      BlockRun(h, q.idx, setSel, StartBlock(q), sizes[0]) + rest
  }

  function Total(sizes: seq<nat>): nat {
    if sizes == [] then 0 else sizes[0] + Total(sizes[1..])
  }

  // One call per element, one more per scanned block run, and one for the set that ends
  // the scan.
  function CallsFor(q: Query, sizes: seq<nat>): nat {
    Total(sizes) + (if q.blockSel == -1 then |sizes| else 0) + if q.setSel == -1 || sizes == [] then 1 else 0
  }

  // A scan over sets can only end at the parameter's first block.
  predicate CanEnd(q: Query) {
    q.setSel == -1 ==> StartBlock(q) == q.p.firstBlock
  }

  lemma {:induction false} ScanBlocks(h: Handler, q: Query, setSel: int, b: int, n: nat, quiet: bool, allocs: nat)
    requires q.blockSel == -1 && n > 0 && allocs > n
    requires forall j :: b <= j < b + n ==> h(q.idx, setSel, j).Good?
    ensures var r := Scan(h, q, setSel, b + n, true, allocs - n);
      Scan(h, q, setSel, b, quiet, allocs) == Result(BlockRun(h, q.idx, setSel, b, n) + r.items, n + r.calls, r.ret)
    decreases n
  {
    if n > 1 {
      ScanBlocks(h, q, setSel, b + 1, n - 1, true, allocs - 1);
      var r := Scan(h, q, setSel, b + n, true, allocs - n);
      var item := [Item(Selector(q.idx, setSel, b), h(q.idx, setSel, b).data)];
      assert item + (BlockRun(h, q.idx, setSel, b + 1, n - 1) + r.items) == BlockRun(h, q.idx, setSel, b, n) + r.items;
    }
  }

  // A set with n > 0 blocks: they are found, then the scan goes on with the next set or
  // ends.
  lemma ScanOneSet(h: Handler, q: Query, setSel: int, n: nat, quiet: bool, allocs: nat)
    requires n > 0 && SetHas(h, q, setSel, n) && allocs >= n + if q.blockSel == -1 then 1 else 0
    ensures var calls := n + if q.blockSel == -1 then 1 else 0;
      var r := if q.setSel == -1 then Scan(h, q, setSel + 1, StartBlock(q), true, allocs - calls) else Result([], 0, 0);
      Scan(h, q, setSel, StartBlock(q), quiet, allocs)
        == Result(BlockRun(h, q.idx, setSel, StartBlock(q), n) + r.items, calls + r.calls, r.ret)
  {
    if q.blockSel == -1 {
      ScanBlocks(h, q, setSel, StartBlock(q), n, quiet, allocs);
    } else {
      assert BlockRun(h, q.idx, setSel, StartBlock(q), 1)
          == [Item(Selector(q.idx, setSel, q.blockSel), h(q.idx, setSel, q.blockSel).data)];
    }
  }

  // The scan is exact: on a finite domain it stops after CallsFor calls and finds every
  // element of the domain once, in lexicographic order, and nothing else.
  lemma {:induction false} ScanExact(h: Handler, q: Query, setSel: int, sizes: seq<nat>, quiet: bool, allocs: nat)
    requires Domain(h, q, setSel, sizes) && CanEnd(q)
    requires allocs >= CallsFor(q, sizes)
    requires quiet || sizes != []
    ensures Scan(h, q, setSel, StartBlock(q), quiet, allocs) == Result(Elements(h, q, setSel, sizes), CallsFor(q, sizes), 0)
    decreases |sizes|
  {
    if sizes == [] {
      EmptyDomain(h, q, setSel, allocs);
    } else {
      ScanOneSet(h, q, setSel, sizes[0], quiet, allocs);
      hide Scan, SetHas;
      if q.setSel == -1 {
        ScanExact(h, q, setSel + 1, sizes[1..], true, allocs - sizes[0] - if q.blockSel == -1 then 1 else 0);
      } else {
        assert sizes[1..] == [] && Total(sizes) == sizes[0];
      }
    }
  }

  // Without a first success, a scan that is not quiet reports the handler's error; an
  // empty domain is not an error only when the caller asked for quiet.
  lemma EmptyDomain(h: Handler, q: Query, setSel: int, allocs: nat)
    requires Domain(h, q, setSel, []) && CanEnd(q) && allocs >= 1
    ensures Scan(h, q, setSel, StartBlock(q), true, allocs) == Result([], 1, 0)
    ensures Scan(h, q, setSel, StartBlock(q), false, allocs) == Result([], 1, h(q.idx, setSel, StartBlock(q)).code)
  {
  }

  // Why CanEnd is needed: a scan over sets at any other block never ends by itself. It
  // makes one call per allocation until memory runs out, whatever the handler answers.
  lemma {:induction false} OtherBlockNeverEnds(h: Handler, q: Query, cset: int, quiet: bool, allocs: nat)
    requires q.setSel == -1 && q.blockSel != -1 && !CanEnd(q)
    requires quiet || h(q.idx, cset, StartBlock(q)).Good?
    ensures var r := Scan(h, q, cset, StartBlock(q), quiet, allocs); r.calls == allocs && r.ret == -1
    decreases allocs
  {
    if allocs > 0 {
      OtherBlockNeverEnds(h, q, cset + 1, true, allocs - 1);
    }
  }

  // No run of a quiet scan over sets at a fixed block makes more than bound calls.
  ghost predicate EndsWithin(h: Handler, q: Query, cset: int, bound: nat) {
    forall allocs: nat :: Scan(h, q, cset, StartBlock(q), true, allocs).calls <= bound
  }

  // For a handler that fails on some later set, a scan over sets at a fixed block ends
  // if and only if that block is the parameter's first block.
  lemma FixedBlockEndsIffFirst(h: Handler, q: Query, cset: int, n: nat)
    requires q.setSel == -1 && q.blockSel != -1 && h(q.idx, cset + n, q.blockSel).Bad?
    ensures (exists bound: nat :: EndsWithin(h, q, cset, bound)) <==> q.blockSel == q.p.firstBlock
  {
    if q.blockSel == q.p.firstBlock {
      forall allocs: nat ensures Scan(h, q, cset, StartBlock(q), true, allocs).calls <= n + 1 {
        FirstBlockEnds(h, q, cset, n, allocs);
      }
      assert EndsWithin(h, q, cset, n + 1);
    } else {
      forall bound: nat | EndsWithin(h, q, cset, bound) ensures false {
        OtherBlockNeverEnds(h, q, cset, true, bound + 1);
      }
    }
  }

  lemma {:induction false} FirstBlockEnds(h: Handler, q: Query, cset: int, n: nat, allocs: nat)
    requires q.setSel == -1 && q.blockSel != -1 && q.blockSel == q.p.firstBlock && h(q.idx, cset + n, q.blockSel).Bad?
    ensures Scan(h, q, cset, StartBlock(q), true, allocs).calls <= n + 1
    decreases n
  {
    if n > 0 && allocs > 0 && h(q.idx, cset, q.blockSel).Good? {
      FirstBlockEnds(h, q, cset + 1, n - 1, allocs - 1);
    }
  }

  // ---- selectors found by a scan are ones the parser accepts ----

  // A selector that fits the descriptor: 0 where it does not apply, at least the first
  // set or block where it does.
  predicate SelectorFits(p: Param, setSel: int, blockSel: int) {
    && (if p.isSet then setSel >= p.firstSet else setSel == 0)
    && (if p.hasBlocks then blockSel >= p.firstBlock else blockSel == 0)
  }

  // A request as the parser makes it: each selector -1 or fitting.
  predicate RequestFits(p: Param, setSel: int, blockSel: int) {
    && (setSel == -1 || if p.isSet then setSel >= p.firstSet else setSel == 0)
    && (blockSel == -1 || if p.hasBlocks then blockSel >= p.firstBlock else blockSel == 0)
  }

  lemma {:induction false} ScanSelectorsFit(h: Handler, q: Query, cset: int, cblock: int, quiet: bool, allocs: nat)
    requires SelectorFits(q.p, cset, cblock) && SelectorFits(q.p, cset, StartBlock(q))
    requires (q.setSel == -1 ==> q.p.isSet) && (q.blockSel == -1 ==> q.p.hasBlocks)
    ensures forall it :: it in Scan(h, q, cset, cblock, quiet, allocs).items ==>
      it.sel.param == q.idx && SelectorFits(q.p, it.sel.setSel, it.sel.blockSel)
    decreases allocs
  {
    if allocs > 0 {
      match h(q.idx, cset, cblock)
      case Bad(_) =>
        if quiet && cblock != q.p.firstBlock && q.setSel == -1 {
          ScanSelectorsFit(h, q, cset + 1, StartBlock(q), quiet, allocs - 1);
        }
      case Good(_) =>
        if q.blockSel == -1 {
          ScanSelectorsFit(h, q, cset, cblock + 1, true, allocs - 1);
        } else if q.setSel == -1 {
          ScanSelectorsFit(h, q, cset + 1, StartBlock(q), true, allocs - 1);
        }
    }
  }

  lemma GetParamSelectorsFit(h: Handler, idx: nat, p: Param, setSel: int, blockSel: int, quiet: bool, allocs: nat)
    requires RequestFits(p, setSel, blockSel)
    ensures forall it :: it in GetParam(h, idx, p, setSel, blockSel, quiet, allocs).items ==>
      it.sel.param == idx && SelectorFits(p, it.sel.setSel, it.sel.blockSel)
  {
    if p.size != 0 {
      var q := QueryOf(idx, p, setSel, blockSel);
      ScanSelectorsFit(h, q, StartSet(q), StartBlock(q), quiet, allocs);
    }
  }

  // ---- ipmi_cfgp_get over the whole table ----

  function GetFrom(h: Handler, table: seq<Param>, i: nat, setSel: int, blockSel: int, allocs: nat): (r: Result)
    requires i <= |table|
    ensures r.calls <= allocs
    decreases |table| - i
  {
    if i == |table| then Result([], 0, 0)
    else if table[i].access == WriteOnly then GetFrom(h, table, i + 1, setSel, blockSel, allocs)
    else
      var r := GetParam(h, i, table[i], setSel, blockSel, true, allocs);
      if r.ret != 0 then Result(r.items, r.calls, -1)
      else
        var rest := GetFrom(h, table, i + 1, setSel, blockSel, allocs - r.calls);
        Result(r.items + rest.items, r.calls + rest.calls, rest.ret)
  }

  // Only parameters that are not write-only are read, from number i on; and a read of all
  // that succeeds has read every one of them, so none was without a size.
  lemma {:induction false} GetFromReads(h: Handler, table: seq<Param>, i: nat, setSel: int, blockSel: int, allocs: nat)
    requires i <= |table|
    requires forall k :: i <= k < |table| ==> RequestFits(table[k], setSel, blockSel)
    ensures var r := GetFrom(h, table, i, setSel, blockSel, allocs);
      && (forall it :: it in r.items ==> i <= it.sel.param < |table| && table[it.sel.param].access != WriteOnly)
      && (r.ret == 0 ==> forall k :: i <= k < |table| && table[k].access != WriteOnly ==> table[k].size != 0)
    decreases |table| - i
  {
    if i < |table| {
      if table[i].access == WriteOnly {
        GetFromReads(h, table, i + 1, setSel, blockSel, allocs);
      } else {
        GetParamSelectorsFit(h, i, table[i], setSel, blockSel, true, allocs);
        GetFromReads(h, table, i + 1, setSel, blockSel, allocs - GetParam(h, i, table[i], setSel, blockSel, true, allocs).calls);
      }
    }
  }

  // Get with a selector: one parameter, or all readable ones.
  function Get(h: Handler, table: seq<Param>, sel: Selector, allocs: nat): (r: Result)
    requires -1 <= sel.param
    ensures r.calls <= allocs
  {
    if sel.param == -1 then GetFrom(h, table, 0, sel.setSel, sel.blockSel, allocs)
    else if sel.param >= |table| then Result([], 0, -1)
    else
      var r := GetParam(h, sel.param, table[sel.param], sel.setSel, sel.blockSel, false, allocs);
      if r.ret != 0 then r.(ret := -1) else r
  }

  // With a selector of one parameter: its domain, or an error if that is empty, the
  // parameter unknown or nothing to be read of it.
  lemma GetOneExact(h: Handler, table: seq<Param>, sel: Selector, sizes: seq<nat>, allocs: nat)
    requires sel.param >= 0
    requires sel.param < |table| && table[sel.param].size != 0 ==>
      var q := QueryOf(sel.param, table[sel.param], sel.setSel, sel.blockSel);
      CanEnd(q) && Domain(h, q, StartSet(q), sizes) && allocs >= CallsFor(q, sizes)
    ensures Get(h, table, sel, allocs) ==
      if sel.param >= |table| || table[sel.param].size == 0 then Result([], 0, -1)
      else
        var q := QueryOf(sel.param, table[sel.param], sel.setSel, sel.blockSel);
        if sizes == [] then Result([], 1, -1) else Result(Elements(h, q, StartSet(q), sizes), CallsFor(q, sizes), 0)
  {
    if sel.param < |table| && table[sel.param].size != 0 {
      hide Scan, Domain, Elements;
      var q := QueryOf(sel.param, table[sel.param], sel.setSel, sel.blockSel);
      if sizes == [] {
        EmptyDomain(h, q, StartSet(q), allocs);
      } else {
        ScanExact(h, q, StartSet(q), sizes, false, allocs);
      }
    }
  }

  // Every readable parameter from i on has a finite domain and can be scanned to its end.
  ghost predicate TableDomain(h: Handler, table: seq<Param>, i: nat, setSel: int, blockSel: int, sizes: seq<seq<nat>>)
    requires i <= |table| == |sizes|
    decreases |table| - i
  {
    i == |table| ||
      (&& (table[i].access != WriteOnly ==>
            var q := QueryOf(i, table[i], setSel, blockSel);
            table[i].size != 0 && CanEnd(q) && Domain(h, q, StartSet(q), sizes[i]))
       && TableDomain(h, table, i + 1, setSel, blockSel, sizes))
  }

  ghost function TableElements(h: Handler, table: seq<Param>, i: nat, setSel: int, blockSel: int, sizes: seq<seq<nat>>): seq<Item>
    requires i <= |table| == |sizes| && TableDomain(h, table, i, setSel, blockSel, sizes)
    decreases |table| - i
  {
    if i == |table| then []
    else
      var rest := TableElements(h, table, i + 1, setSel, blockSel, sizes);
      if table[i].access == WriteOnly then rest
      else
        var q := QueryOf(i, table[i], setSel, blockSel);
        Elements(h, q, StartSet(q), sizes[i]) + rest
  }

  function TableCalls(table: seq<Param>, i: nat, setSel: int, blockSel: int, sizes: seq<seq<nat>>): nat
    requires i <= |table| == |sizes|
    decreases |table| - i
  {
    if i == |table| then 0
    else
      var here := if table[i].access == WriteOnly then 0 else CallsFor(QueryOf(i, table[i], setSel, blockSel), sizes[i]);
      here + TableCalls(table, i + 1, setSel, blockSel, sizes)
  }

  // Reading a whole table finds the domain of every readable parameter, in table order.
  lemma {:induction false} GetFromExact(h: Handler, table: seq<Param>, i: nat, setSel: int, blockSel: int, sizes: seq<seq<nat>>, allocs: nat)
    requires i <= |table| == |sizes| && TableDomain(h, table, i, setSel, blockSel, sizes)
    requires allocs >= TableCalls(table, i, setSel, blockSel, sizes)
    ensures GetFrom(h, table, i, setSel, blockSel, allocs)
      == Result(TableElements(h, table, i, setSel, blockSel, sizes), TableCalls(table, i, setSel, blockSel, sizes), 0)
    decreases |table| - i
  {
    if i < |table| {
      if table[i].access == WriteOnly {
        GetFromExact(h, table, i + 1, setSel, blockSel, sizes, allocs);
      } else {
        hide Scan, Elements, Domain, CallsFor;
        var q := QueryOf(i, table[i], setSel, blockSel);
        ScanExact(h, q, StartSet(q), sizes[i], true, allocs);
        GetFromExact(h, table, i + 1, setSel, blockSel, sizes, allocs - CallsFor(q, sizes[i]));
      }
    }
  }
}
