// The parameter context of lib/ipmi_cfgp.c: a linked list of data that the actions
// append to and walk over.
module CfgpContext {
  import opened Cfgp
  import opened CfgpText

  // struct ipmi_cfgp_data
  class Data {
    const item: Item
    var next: Data?
    ghost const pos: nat  // place in the list; keeps the nodes apart

    constructor (item: Item, ghost pos: nat)
      ensures this.item == item && this.pos == pos && next == null
    {
      this.item := item;
      this.pos := pos;
      next := null;
    }
  }

  // What the handler does with one stored item when saving, setting or printing it: the
  // values it prints, or an error.
  datatype Emitted = Emitted(values: seq<string>, failed: bool)
  type Emitter = Item -> Emitted

  predicate Selects(sel: Selector, it: Item) {
    && (sel.param == -1 || sel.param == it.sel.param)
    && (sel.setSel == -1 || sel.setSel == it.sel.setSel)
    && (sel.blockSel == -1 || sel.blockSel == it.sel.blockSel)
  }

  // An item that can be acted on: its parameter exists and has a name, and the
  // selectors printed in decimal are not negative.
  predicate ItemOk(table: seq<Param>, it: Item) {
    0 <= it.sel.param < |table| && table[it.sel.param].name.Some? && it.sel.setSel >= 0 && it.sel.blockSel >= 0
  }

  ghost predicate ItemsOk(table: seq<Param>, items: seq<Item>) {
    forall i :: 0 <= i < |items| ==> ItemOk(table, items[i])
  }

  // The line save prints for an item: command name, selector, values.
  function SavedLine(table: seq<Param>, cmdname: string, it: Item, emit: Emitter): seq<string>
    requires ItemOk(table, it)
  {
    [cmdname] + SavedSelector(table[it.sel.param], it.sel) + emit(it).values
  }

  // What an action over the list does: the items the handler saw, the lines printed
  // (only by save), the result.
  datatype Acted = Acted(handled: seq<Item>, lines: seq<seq<string>>, rc: int)

  // cfgp_do_action: every selected item whose access is not the filtered one, in list
  // order, up to and including the first failure.
  function Act(table: seq<Param>, cmdname: string, items: seq<Item>, sel: Selector, emit: Emitter, filter: Access, save: bool): Acted
    requires ItemsOk(table, items)
  {
    if items == [] then Acted([], [], 0)
    else
      var it := items[0];
      assert ItemOk(table, it);
      if !Selects(sel, it) || table[it.sel.param].access == filter then
        Act(table, cmdname, items[1..], sel, emit, filter, save)
      else
        var line := if save then [SavedLine(table, cmdname, it, emit)] else [];
        if emit(it).failed then Acted([it], line, -1)
        else
          var rest := Act(table, cmdname, items[1..], sel, emit, filter, save);
          Acted([it] + rest.handled, line + rest.lines, rest.rc)
  }

  // An action is for an item when every selector that is not -1 is the item's, and its
  // parameter's access is not the filtered one.
  predicate IsFor(table: seq<Param>, it: Item, sel: Selector, filter: Access)
    requires ItemOk(table, it)
  {
    && (sel.param != -1 ==> it.sel.param == sel.param)
    && (sel.setSel != -1 ==> it.sel.setSel == sel.setSel)
    && (sel.blockSel != -1 ==> it.sel.blockSel == sel.blockSel)
    && table[it.sel.param].access != filter
  }

  ghost function Chosen(table: seq<Param>, items: seq<Item>, sel: Selector, filter: Access): (c: seq<Item>)
    requires ItemsOk(table, items)
    ensures ItemsOk(table, c)
  {
    if items == [] then []
    else
      var rest := Chosen(table, items[1..], sel, filter);
      assert ItemOk(table, items[0]);
      if IsFor(table, items[0], sel, filter) then [items[0]] + rest else rest
  }

  // The tokens of a line: command, parameter, its set and its block if it has any, values.
  ghost predicate IsLine(table: seq<Param>, cmdname: string, it: Item, emit: Emitter, line: seq<string>)
    requires ItemOk(table, it)
  {
    var p := table[it.sel.param];
    line == [cmdname, p.name.value]
      + (if p.isSet then [Decimal(it.sel.setSel)] else [])
      + (if p.hasBlocks then [Decimal(it.sel.blockSel)] else [])
      + emit(it).values
  }

  // What was handled are the items the action is for, in list order, all of them or up to
  // the first that fails; the result says which. A save prints a line for each.
  ghost predicate Handled(table: seq<Param>, cmdname: string, chosen: seq<Item>, emit: Emitter, save: bool, r: Acted)
    requires ItemsOk(table, chosen)
  {
    && r.handled <= chosen
    && (forall k :: 0 <= k < |r.handled| - 1 ==> !emit(r.handled[k]).failed)
    && (if r.rc == 0 then r.handled == chosen && (r.handled != [] ==> !emit(r.handled[|r.handled| - 1]).failed)
        else r.rc == -1 && r.handled != [] && emit(r.handled[|r.handled| - 1]).failed)
    && |r.lines| == (if save then |r.handled| else 0)
    && forall k :: 0 <= k < |r.lines| ==> ItemOk(table, chosen[k]) && IsLine(table, cmdname, chosen[k], emit, r.lines[k])
  }

  lemma {:induction false} ActHandles(table: seq<Param>, cmdname: string, items: seq<Item>, sel: Selector, emit: Emitter, filter: Access, save: bool)
    requires ItemsOk(table, items)
    ensures Handled(table, cmdname, Chosen(table, items, sel, filter), emit, save, Act(table, cmdname, items, sel, emit, filter, save))
  {
    if items != [] {
      var it, rest := items[0], Act(table, cmdname, items[1..], sel, emit, filter, save);
      assert ItemOk(table, it);
      ActHandles(table, cmdname, items[1..], sel, emit, filter, save);
      if IsFor(table, it, sel, filter) {
        var line := SavedLine(table, cmdname, it, emit);
        assert IsLine(table, cmdname, it, emit, line);
        hide Act, Chosen, Handled;
        var chosen := Chosen(table, items[1..], sel, filter);
        OneMore(table, cmdname, it, chosen, emit, save, rest, line);
        ActFirst(table, cmdname, items, sel, emit, filter, save);
      }
    }
  }

  lemma ActFirst(table: seq<Param>, cmdname: string, items: seq<Item>, sel: Selector, emit: Emitter, filter: Access, save: bool)
    requires ItemsOk(table, items) && items != [] && ItemOk(table, items[0]) && IsFor(table, items[0], sel, filter)
    ensures Chosen(table, items, sel, filter) == [items[0]] + Chosen(table, items[1..], sel, filter)
    ensures var it, rest := items[0], Act(table, cmdname, items[1..], sel, emit, filter, save);
      var line := if save then [SavedLine(table, cmdname, it, emit)] else [];
      Act(table, cmdname, items, sel, emit, filter, save)
        == if emit(it).failed then Acted([it], line, -1) else Acted([it] + rest.handled, line + rest.lines, rest.rc)
  {
    hide SavedLine;
  }

  lemma OneMore(table: seq<Param>, cmdname: string, it: Item, chosen: seq<Item>, emit: Emitter, save: bool, rest: Acted, line: seq<string>)
    requires ItemOk(table, it) && ItemsOk(table, chosen) && Handled(table, cmdname, chosen, emit, save, rest)
    requires IsLine(table, cmdname, it, emit, line)
    ensures var lines := if save then [line] else [];
      && ItemsOk(table, [it] + chosen)
      && Handled(table, cmdname, [it] + chosen, emit, save,
                 if emit(it).failed then Acted([it], lines, -1) else Acted([it] + rest.handled, lines + rest.lines, rest.rc))
  {
    hide IsLine;
    if !emit(it).failed {
      var handled := [it] + rest.handled;
      assert forall k :: 1 <= k < |handled| ==> handled[k] == rest.handled[k - 1];
      assert forall k :: 1 <= k < |chosen| + 1 ==> ([it] + chosen)[k] == chosen[k - 1];
    }
  }

  // Every line a save prints parses back to the selector of the item it came from, using
  // its selector tokens and none of the values behind them.
  lemma {:induction false} SavedLinesParseBack(table: seq<Param>, cmdname: string, items: seq<Item>, sel: Selector, emit: Emitter, other: OtherForms)
    requires ItemsOk(table, items) && DistinctNames(table)
    requires forall i :: 0 <= i < |items| ==> Storable(table, items[i].sel)
    requires forall i :: 0 <= i < |table| ==> table[i].hasBlocks ==> table[i].isSet
    ensures var r := Act(table, cmdname, items, sel, emit, ReadOnly, true);
      && |r.lines| == |r.handled|
      && forall k :: 0 <= k < |r.lines| ==> LineParses(table, r.lines[k], r.handled[k], other)
  {
    hide ParseSel, SavedSelector, SelectorFits;
    if items != [] {
      var it, r := items[0], Act(table, cmdname, items, sel, emit, ReadOnly, true);
      assert ItemOk(table, it) && Storable(table, it.sel);
      SavedLinesParseBack(table, cmdname, items[1..], sel, emit, other);
      var rest := Act(table, cmdname, items[1..], sel, emit, ReadOnly, true);
      if Selects(sel, it) && table[it.sel.param].access != ReadOnly {
        SaveThenParse(table, it.sel, emit(it).values, other);
        var line := SavedLine(table, cmdname, it, emit);
        assert line[1..] == SavedSelector(table[it.sel.param], it.sel) + emit(it).values;
        assert LineParses(table, line, it, other);
        if !emit(it).failed {
          assert forall k :: 1 <= k < |r.lines| ==> r.lines[k] == rest.lines[k - 1] && r.handled[k] == rest.handled[k - 1];
        }
      }
    }
  }

  ghost predicate LineParses(table: seq<Param>, line: seq<string>, it: Item, other: OtherForms) {
    && ItemOk(table, it) && line != []
    && ParseSel(table, line[1..], other) == Used(|SavedSelector(table[it.sel.param], it.sel)|, it.sel)
  }

  class Context {
    const table: seq<Param>
    const cmdname: string
    const handler: Handler
    var v: Data?
    ghost var nodes: seq<Data>
    ghost var Repr: set<object>

    ghost predicate Valid()
      reads this, Repr
    {
      && this in Repr && (forall i :: 0 <= i < |nodes| ==> nodes[i] in Repr)
      && v == NodeAt(0)
      && forall i :: 0 <= i < |nodes| ==> nodes[i].pos == i && nodes[i].next == NodeAt(i + 1)
    }

    ghost function NodeAt(i: nat): Data?
      reads this
    {
      if i < |nodes| then nodes[i] else null
    }

    ghost function Items(): (s: seq<Item>)
      reads this
      ensures |s| == |nodes|
    {
      seq(|nodes|, i requires 0 <= i < |nodes| reads this => nodes[i].item)
    }

    // ipmi_cfgp_init
    constructor (table: seq<Param>, cmdname: string, handler: Handler)
      ensures Valid() && fresh(Repr) && Items() == []
      ensures this.table == table && this.cmdname == cmdname && this.handler == handler
    {
      this.table := table;
      this.cmdname := cmdname;
      this.handler := handler;
      v := null;
      nodes := [];
      Repr := {this};
    }

    // ipmi_cfgp_uninit: drop the list, node by node.
    method Uninit()
      requires Valid()
      modifies this
      ensures Valid() && Items() == []
    {
      ghost var k := 0;
      while v != null
        invariant k <= |nodes| && v == NodeAt(k) && nodes == old(nodes) && Repr == old(Repr)
        invariant forall i :: 0 <= i < |nodes| ==> nodes[i].next == NodeAt(i + 1)
        decreases |nodes| - k
      {
        v := v.next;
        k := k + 1;
      }
      nodes := [];
    }

    // cfgp_add_data: walk to the end and append.
    method AddData(data: Data)
      requires Valid() && data !in Repr && data.pos == |nodes|
      modifies Repr, data
      ensures Valid() && Repr == old(Repr) + {data}
      ensures Items() == old(Items()) + [data.item]
    {
      data.next := null;
      var prev: Data?, cur := null, v;
      ghost var k := 0;
      while cur != null
        invariant k <= |nodes| && cur == NodeAt(k) && prev == if k == 0 then null else nodes[k - 1]
        decreases |nodes| - k
      {
        prev := cur;
        cur := cur.next;
        k := k + 1;
      }
      if prev == null {
        v := data;
      } else {
        prev.next := data;
      }
      nodes := nodes + [data];
      Repr := Repr + {data};
    }

    // One successful handler call: allocate a node and append it.
    method Append(item: Item)
      requires Valid()
      modifies Repr
      ensures Valid() && fresh(Repr - old(Repr)) && Items() == old(Items()) + [item]
    {
      var data := new Data(item, |nodes|);
      AddData(data);
    }

    // The list holds what it held before, followed by done.
    ghost predicate Holds(base: seq<Item>, done: seq<Item>)
      reads this
    {
      Items() == base + done
    }

    method AppendTo(item: Item, ghost base: seq<Item>, ghost done: seq<Item>)
      requires Valid() && Holds(base, done)
      modifies Repr
      ensures Valid() && fresh(Repr - old(Repr)) && Holds(base, done + [item])
    {
      Append(item);
      assert base + (done + [item]) == (base + done) + [item];
    }

    // One pass over the blocks of a set, the inner do-while of cfgp_get_param. `ended`
    // says that the whole call returns ret at once.
    method ScanSet(idx: nat, firstBlock: nat, theBlock: int, cset: int, quiet: bool, allocs: nat,
        ghost q: Query, ghost target: Result, ghost base: seq<Item>, ghost done0: seq<Item>, calls0: nat)
      returns (ended: bool, ret: int, cblock: int, beQuiet: bool, left: nat, calls: nat, ghost done: seq<Item>)
      requires Valid() && q.idx == idx && q.p.firstBlock == firstBlock && q.blockSel == theBlock && Holds(base, done0)
      requires Rest(target, done0, calls0, Scan(handler, q, cset, StartBlock(q), quiet, allocs))
      modifies Repr
      ensures Valid() && fresh(Repr - old(Repr)) && Holds(base, done) && left <= allocs
      ensures ended ==> target == Result(done, calls, ret)
      ensures !ended ==> left < allocs && Rest(target, done, calls, AfterRun(handler, q, cset, ret != 0 && cblock == firstBlock, beQuiet, left))
    {
      hide Valid, Holds, Scan, Rest, AfterRun;
      ended, ret, beQuiet, left, calls, done := false, 0, quiet, allocs, calls0, done0;
      cblock := if theBlock == -1 then firstBlock else theBlock;
      var inner := true;
      while inner
        invariant Valid() && fresh(Repr - old(Repr)) && Holds(base, done)
        invariant inner ==> Rest(target, done, calls, Scan(handler, q, cset, cblock, beQuiet, left))
        invariant !inner ==> Rest(target, done, calls, AfterRun(handler, q, cset, ret != 0 && cblock == firstBlock, beQuiet, left))
        invariant left <= allocs && (!inner ==> left < allocs)
        decreases inner, left
      {
        if left == 0 {
          ScanOut(handler, q, cset, cblock, beQuiet, target, done, calls);
          ended, ret := true, -1;
          return;
        }
        ScanStep(handler, q, cset, cblock, beQuiet, left, target, done, calls);
        left := left - 1;
        calls := calls + 1;
        match handler(idx, cset, cblock) {
          case Bad(code) =>
            ret := code;
            if !beQuiet {
              ended := true;
              return;
            }
            inner := false;
          case Good(d) =>
            ret := 0;
            AppendTo(Item(Selector(idx, cset, cblock), d), base, done);
            done := done + [Item(Selector(idx, cset, cblock), d)];
            cblock := cblock + 1;
            beQuiet := true;
            inner := theBlock == -1;
        }
      }
    }

    // cfgp_get_param: the nested loops over sets and blocks. allocs is the number of
    // allocations that succeed.
    method GetParam(idx: nat, setSel: int, blockSel: int, quiet: bool, allocs: nat) returns (ret: int, calls: nat)
      requires Valid() && idx < |table|
      modifies Repr
      ensures Valid() && fresh(Repr - old(Repr))
      ensures var r := Cfgp.GetParam(handler, idx, table[idx], setSel, blockSel, quiet, allocs);
        Items() == old(Items()) + r.items && ret == r.ret && calls == r.calls
    {
      var p := table[idx];
      calls := 0;
      if p.size == 0 {
        return -1, calls;
      }
      var theSet := if setSel == -1 && !p.isSet then 0 else setSel;
      var theBlock := if blockSel == -1 && !p.hasBlocks then 0 else blockSel;
      var cset := if theSet == -1 then p.firstSet else theSet;
      var beQuiet, left, more := quiet, allocs, true;
      ghost var q := QueryOf(idx, p, setSel, blockSel);
      ghost var target, done := Scan(handler, q, cset, StartBlock(q), quiet, allocs), [];
      hide Valid, Holds, Scan, Rest;
      ghost var base := Items();
      HoldsNothing();
      RestStarts(target);
      ret := 0;
      while more
        invariant Valid() && fresh(Repr - old(Repr)) && Holds(base, done)
        invariant more ==> Rest(target, done, calls, Scan(handler, q, cset, StartBlock(q), beQuiet, left))
        invariant !more ==> Rest(target, done, calls, Result([], 0, 0))
        decreases more, left
      {
        var ended, cblock;
        ended, ret, cblock, beQuiet, left, calls, done :=
          ScanSet(idx, p.firstBlock, theBlock, cset, beQuiet, left, q, target, base, done, calls);
        if ended {
          HoldsAll(base, done);
          return;
        }
        if ret != 0 && cblock == p.firstBlock {
          more := false;
        } else {
          cset := cset + 1;
          more := theSet == -1;
        }
      }
      RestEnds(target, done, calls);
      HoldsAll(base, done);
      ret := 0;
    }

    lemma HoldsNothing()
      ensures Holds(Items(), [])
    {
    }

    lemma HoldsAll(base: seq<Item>, done: seq<Item>)
      requires Holds(base, done)
      ensures Items() == base + done
    {
    }

    lemma HoldsMore(base: seq<Item>, done: seq<Item>, more: seq<Item>, was: seq<Item>)
      requires was == base + done && Items() == was + more
      ensures Holds(base, done + more)
    {
    }

    // ipmi_cfgp_get: one parameter, or every readable one with errors kept quiet.
    method Get(sel: Selector, allocs: nat) returns (rc: int, calls: nat)
      requires Valid() && -1 <= sel.param
      modifies Repr
      ensures Valid() && fresh(Repr - old(Repr))
      ensures var r := Cfgp.Get(handler, table, sel, allocs);
        Items() == old(Items()) + r.items && rc == r.ret && calls == r.calls
    {
      calls := 0;
      if sel.param != -1 {
        if sel.param >= |table| {
          return -1, calls;
        }
        var ret;
        ret, calls := GetParam(sel.param, sel.setSel, sel.blockSel, false, allocs);
        return if ret != 0 then -1 else 0, calls;
      }
      ghost var done: seq<Item> := [];
      ghost var target := GetFrom(handler, table, 0, sel.setSel, sel.blockSel, allocs);
      var left := allocs;
      hide Valid, Items, Holds, GetFrom, Rest;
      ghost var base := Items();
      HoldsNothing();
      RestStarts(target);
      for i := 0 to |table|
        invariant Valid() && fresh(Repr - old(Repr)) && Holds(base, done) && calls + left == allocs
        invariant Rest(target, done, calls, GetFrom(handler, table, i, sel.setSel, sel.blockSel, left))
      {
        GetStep(handler, table, i, sel.setSel, sel.blockSel, left, target, done, calls);
        if table[i].access != WriteOnly {
          ghost var r, was := Cfgp.GetParam(handler, i, table[i], sel.setSel, sel.blockSel, true, left), Items();
          HoldsAll(base, done);
          var ret, n;
          ret, n := GetParam(i, sel.setSel, sel.blockSel, true, left);
          HoldsMore(base, done, r.items, was);
          done, calls, left := done + r.items, calls + n, left - n;
          if ret != 0 {
            HoldsAll(base, done);
            return -1, calls;
          }
        }
      }
      GetNothing(handler, table, sel.setSel, sel.blockSel, left);
      RestEnds(target, done, calls);
      HoldsAll(base, done);
      return 0, calls;
    }

    // cfgp_do_action: walk the list; the lines are what save writes to the file.
    method DoAction(sel: Selector, emit: Emitter, filter: Access, save: bool)
      returns (rc: int, lines: seq<seq<string>>, ghost handled: seq<Item>)
      requires Valid() && ItemsOk(table, Items())
      ensures rc == Act(table, cmdname, Items(), sel, emit, filter, save).rc
      ensures lines == Act(table, cmdname, Items(), sel, emit, filter, save).lines
      ensures handled == Act(table, cmdname, Items(), sel, emit, filter, save).handled
    {
      rc, lines, handled := 0, [], [];
      var data := v;
      ghost var k, items := 0, Items();
      assert items[0..] == items;
      while data != null
        invariant k <= |nodes| && data == NodeAt(k)
        invariant Acts(Act(table, cmdname, items, sel, emit, filter, save), handled, lines,
                       Act(table, cmdname, items[k..], sel, emit, filter, save))
        decreases |nodes| - k
      {
        hide Act, Acts, SavedLine;
        var it := data.item;
        assert it == items[k];
        ActStep(table, cmdname, items, k, sel, emit, filter, save, handled, lines);
        if Selects(sel, it) && table[it.sel.param].access != filter {
          handled := handled + [it];
          if save {
            lines := lines + [SavedLine(table, cmdname, it, emit)];
          }
          if emit(it).failed {
            return -1, lines, handled;
          }
        }
        data := data.next;
        k := k + 1;
      }
    }
  }

  // What was handled and printed so far, plus the rest, makes up the whole action.
  ghost predicate Acts(whole: Acted, handled: seq<Item>, lines: seq<seq<string>>, rest: Acted) {
    whole == Acted(handled + rest.handled, lines + rest.lines, rest.rc)
  }

  lemma ActStep(table: seq<Param>, cmdname: string, items: seq<Item>, k: nat, sel: Selector, emit: Emitter, filter: Access, save: bool,
      handled: seq<Item>, lines: seq<seq<string>>)
    requires ItemsOk(table, items) && k < |items|
    requires Acts(Act(table, cmdname, items, sel, emit, filter, save), handled, lines,
                  Act(table, cmdname, items[k..], sel, emit, filter, save))
    ensures ItemOk(table, items[k])
    ensures var whole, rest := Act(table, cmdname, items, sel, emit, filter, save), Act(table, cmdname, items[k + 1..], sel, emit, filter, save);
      if Selects(sel, items[k]) && table[items[k].sel.param].access != filter then
        var handled', lines' := handled + [items[k]], if save then lines + [SavedLine(table, cmdname, items[k], emit)] else lines;
        if emit(items[k]).failed then whole == Acted(handled', lines', -1) else Acts(whole, handled', lines', rest)
      else Acts(whole, handled, lines, rest)
  {
    assert items[k..][1..] == items[k + 1..];
  }

  // done items and calls so far, plus what the rest r adds, make up the target.
  ghost predicate Rest(target: Result, done: seq<Item>, calls: nat, r: Result) {
    target == Result(done + r.items, calls + r.calls, r.ret)
  }

  // What follows an inner loop over the blocks of set cset.
  ghost function AfterRun(h: Handler, q: Query, cset: int, stop: bool, quiet: bool, allocs: nat): Result {
    if stop || q.setSel != -1 then Result([], 0, 0)
    else Scan(h, q, cset + 1, StartBlock(q), quiet, allocs)
  }

  lemma RestStarts(target: Result)
    ensures Rest(target, [], 0, target)
  {
  }

  lemma RestEnds(target: Result, done: seq<Item>, calls: nat)
    requires Rest(target, done, calls, Result([], 0, 0))
    ensures target == Result(done, calls, 0)
  {
  }

  lemma ScanOut(h: Handler, q: Query, cset: int, cblock: int, quiet: bool, target: Result, done: seq<Item>, calls: nat)
    requires Rest(target, done, calls, Scan(h, q, cset, cblock, quiet, 0))
    ensures target == Result(done, calls, -1)
  {
  }

  // One handler call of the scan, in terms of what is left to do.
  lemma ScanStep(h: Handler, q: Query, cset: int, cblock: int, quiet: bool, allocs: nat, target: Result, done: seq<Item>, calls: nat)
    requires allocs > 0 && Rest(target, done, calls, Scan(h, q, cset, cblock, quiet, allocs))
    ensures match h(q.idx, cset, cblock)
      case Bad(code) =>
        && (!quiet ==> target == Result(done, calls + 1, code))
        && (quiet ==> Rest(target, done, calls + 1, AfterRun(h, q, cset, cblock == q.p.firstBlock, quiet, allocs - 1)))
      case Good(d) =>
        Rest(target, done + [Item(Selector(q.idx, cset, cblock), d)], calls + 1,
             if q.blockSel == -1 then Scan(h, q, cset, cblock + 1, true, allocs - 1)
             else AfterRun(h, q, cset, false, true, allocs - 1))
  {
    var rest := Scan(h, q, cset, cblock, quiet, allocs);
    match h(q.idx, cset, cblock)
    case Bad(_) =>
    case Good(d) =>
      var item := [Item(Selector(q.idx, cset, cblock), d)];
      var r := if q.blockSel == -1 then Scan(h, q, cset, cblock + 1, true, allocs - 1) else AfterRun(h, q, cset, false, true, allocs - 1);
      assert rest.items == item + r.items;
      assert done + (item + r.items) == (done + item) + r.items;
  }

  lemma GetStep(h: Handler, table: seq<Param>, i: nat, setSel: int, blockSel: int, allocs: nat, target: Result, done: seq<Item>, calls: nat)
    requires i < |table| && Rest(target, done, calls, GetFrom(h, table, i, setSel, blockSel, allocs))
    ensures if table[i].access == WriteOnly then Rest(target, done, calls, GetFrom(h, table, i + 1, setSel, blockSel, allocs))
      else
        var r := Cfgp.GetParam(h, i, table[i], setSel, blockSel, true, allocs);
        if r.ret != 0 then target == Result(done + r.items, calls + r.calls, -1)
        else Rest(target, done + r.items, calls + r.calls, GetFrom(h, table, i + 1, setSel, blockSel, allocs - r.calls))
  {
  }

  lemma GetNothing(h: Handler, table: seq<Param>, setSel: int, blockSel: int, allocs: nat)
    ensures GetFrom(h, table, |table|, setSel, blockSel, allocs) == Result([], 0, 0)
  {
  }
}
