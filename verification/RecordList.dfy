// The multirecord list of lib/ipmi_ekanalyzer.c: records read from a FRU file into a
// doubly linked list, and removed from it.
module RecordList {
  import opened Bytes
  import opened Multirecord

  const START_DATA_OFFSET := 5

  // ---- what the walk over the file finds ----

  // The records kept and whether the walk ended at a record flagged as the last.
  datatype Walked = Walked(records: seq<Record>, ok: bool)

  // The record whose header stands at `at`.
  function RecordAt(d: seq<byte>, at: nat): Record
    requires at + HEADER_SIZE <= |d| && at + HEADER_SIZE + d[at + 2] as int <= |d|
  {
    Record(d[at], d[at + 1], d[at + HEADER_SIZE..at + HEADER_SIZE + d[at + 2] as int], d[at + 3], d[at + 4])
  }

  // From byte `at` on: a record without data is skipped, flagged as the last or not;
  // running out of file is an error, but the records kept so far stay.
  function Walk(d: seq<byte>, at: nat): Walked
    decreases |d| - at
  {
    if at + HEADER_SIZE > |d| then Walked([], false)
    else
      var len: nat := d[at + 2];
      var next := at + HEADER_SIZE + len;
      if len == 0 then Walk(d, next)
      else if next > |d| then Walked([], false)
      else
        var r := RecordAt(d, at);
        if EndOfList(r.format) then Walked([r], true)
        else
          var rest := Walk(d, next);
          Walked([r] + rest.records, rest.ok)
  }

  // The whole file: byte 5 is the multirecord offset in blocks of eight.
  function WalkFile(d: seq<byte>): Walked {
    if START_DATA_OFFSET >= |d| || d[START_DATA_OFFSET] == 0 then Walked([], false)
    else Walk(d, d[START_DATA_OFFSET] as int * 8)
  }

  predicate Ends(r: Record) {
    r.data != [] && EndOfList(r.format)
  }

  // The records with data, up to and including the first of them flagged as the last.
  function Kept(rs: seq<Record>): seq<Record> {
    if rs == [] then []
    else if rs[0].data == [] then Kept(rs[1..])
    else if Ends(rs[0]) then [rs[0]]
    else [rs[0]] + Kept(rs[1..])
  }

  ghost predicate HasEnd(rs: seq<Record>) {
    exists i :: 0 <= i < |rs| && Ends(rs[i])
  }

  // Wherever an encoded record list stands, the walk keeps its records with data in file
  // order up to the first one flagged as the last. Without such a record it keeps them
  // all and goes on behind the list.
  lemma {:induction false} WalkOnRecords(d: seq<byte>, at: nat, rs: seq<Record>)
    requires RecordsOk(rs)
    requires at + |Encode(rs)| <= |d| && d[at..at + |Encode(rs)|] == Encode(rs)
    ensures HasEnd(rs) ==> Walk(d, at) == Walked(Kept(rs), true)
    ensures !HasEnd(rs) ==>
      var rest := Walk(d, at + |Encode(rs)|); Walk(d, at) == Walked(Kept(rs) + rest.records, rest.ok)
    decreases |rs|
  {
    hide Walk, HasEnd, ZeroSum, Header, Ends, Kept;
    if rs == [] {
      NoEnd();
    } else {
      var r, tail, next := rs[0], rs[1..], at + HEADER_SIZE + |rs[0].data|;
      WalkStep(d, at, r, Encode(tail));
      EncodeFirst(rs);
      hide Encode;
      assert next + |Encode(tail)| == at + |Encode(rs)|;
      WalkOnRecords(d, next, tail);
      HasEndStep(rs);
      KeptFirst(rs, Walk(d, at + |Encode(rs)|).records);
    }
  }

  // What the first record adds to the kept ones, whatever follows the list.
  lemma KeptFirst(rs: seq<Record>, more: seq<Record>)
    requires rs != []
    ensures Ends(rs[0]) ==> rs[0].data != []
    ensures Kept(rs) == if rs[0].data == [] then Kept(rs[1..]) else if Ends(rs[0]) then [rs[0]] else [rs[0]] + Kept(rs[1..])
    ensures rs[0].data != [] && !Ends(rs[0]) ==> Kept(rs) + more == [rs[0]] + (Kept(rs[1..]) + more)
  {
    Joined([rs[0]], Kept(rs[1..]), more);
  }

  lemma Joined(a: seq<Record>, b: seq<Record>, c: seq<Record>)
    ensures (a + b) + c == a + (b + c)
  {
  }

  lemma EncodeFirst(rs: seq<Record>)
    requires RecordsOk(rs) && rs != []
    ensures |Encode(rs)| == HEADER_SIZE + |rs[0].data| + |Encode(rs[1..])|
  {
  }

  lemma NoEnd()
    ensures !HasEnd([]) && Kept([]) == [] && Encode([]) == []
  {
  }

  lemma HasEndStep(rs: seq<Record>)
    requires rs != []
    ensures HasEnd(rs) <==> Ends(rs[0]) || HasEnd(rs[1..])
  {
    assert forall i :: 1 <= i < |rs| ==> rs[i] == rs[1..][i - 1];
    if i :| 0 <= i < |rs[1..]| && Ends(rs[1..][i]) {
      assert Ends(rs[i + 1]);
    }
  }

  // One record of the walk.
  lemma WalkStep(d: seq<byte>, at: nat, r: Record, rest: seq<byte>)
    requires RecordOk(r)
    requires at + |Header(r) + r.data + rest| <= |d|
    requires d[at..at + |Header(r) + r.data + rest|] == Header(r) + r.data + rest
    ensures var next := at + HEADER_SIZE + |r.data|;
      && d[next..next + |rest|] == rest
      && Walk(d, at) == if r.data == [] then Walk(d, next) else if Ends(r) then Walked([r], true)
                        else Walked([r] + Walk(d, next).records, Walk(d, next).ok)
  {
    HeaderAt(d, at, r, rest);
    RecordStands(d, at, r, rest);
  }

  lemma RecordStands(d: seq<byte>, at: nat, r: Record, rest: seq<byte>)
    requires RecordOk(r)
    requires at + |Header(r) + r.data + rest| <= |d|
    requires d[at..at + |Header(r) + r.data + rest|] == Header(r) + r.data + rest
    ensures d[at + 2] == |r.data| && RecordAt(d, at) == r
  {
    HeaderAt(d, at, r, rest);
    Middle(d, at, Header(r), r.data, rest);
    var hd := d[at..at + HEADER_SIZE];
    assert hd[0] == d[at] && hd[1] == d[at + 1] && hd[2] == d[at + 2] && hd[3] == d[at + 3] && hd[4] == d[at + 4];
  }

  // The bytes from `at` on start with an encoded list whose last record, and no earlier
  // one, has data and is flagged as the last.
  ghost predicate StartsWithList(d: seq<byte>, at: nat, rs: seq<Record>) {
    && rs != [] && RecordsOk(rs) && Ends(rs[|rs| - 1]) && !HasEnd(rs[..|rs| - 1])
    && at + |Encode(rs)| <= |d| && d[at..at + |Encode(rs)|] == Encode(rs)
  }

  // Any bytes at all: the walk succeeds exactly when they start with such a list, and
  // the list then is what it kept.
  lemma WalkAcceptsLists(d: seq<byte>, at: nat)
    ensures Walk(d, at).ok <==> exists rs :: StartsWithList(d, at, rs)
    ensures forall rs :: StartsWithList(d, at, rs) ==> Walk(d, at).records == Kept(rs)
  {
    forall rs | StartsWithList(d, at, rs) ensures Walk(d, at) == Walked(Kept(rs), true) {
      assert Ends(rs[|rs| - 1]);
      WalkOnRecords(d, at, rs);
    }
    if Walk(d, at).ok {
      var rs := FoundList(d, at);
    }
  }

  // A file is read successfully exactly when byte 5 is there and not zero and such a list
  // stands at the offset it names, in blocks of eight bytes, whatever else the file holds.
  lemma FileAccepted(d: seq<byte>, at: nat)
    requires |d| > 5 ==> at == 8 * d[5] as int
    ensures WalkFile(d).ok <==> |d| > 5 && d[5] != 0 && exists rs :: StartsWithList(d, at, rs)
    ensures |d| > 5 && d[5] != 0 ==> forall rs :: StartsWithList(d, at, rs) ==> WalkFile(d).records == Kept(rs)
    ensures |d| <= 5 || d[5] == 0 ==> WalkFile(d).records == []
  {
    if |d| > 5 {
      WalkAcceptsLists(d, at);
    }
  }

  lemma {:induction false} FoundList(d: seq<byte>, at: nat) returns (rs: seq<Record>)
    requires Walk(d, at).ok
    ensures StartsWithList(d, at, rs)
    decreases |d| - at
  {
    var next := at + HEADER_SIZE + d[at + 2] as int;
    var r := RecordAt(d, at);
    assert d[at..next] == Header(r) + r.data;
    if Ends(r) {
      rs := [r];
      assert rs[..0] == [] && rs[1..] == [] && Encode([]) == [];
      assert Encode(rs) == Header(r) + r.data;
    } else {
      var tail := FoundList(d, next);
      rs := [r] + tail;
      assert rs[1..] == tail && rs[..|rs| - 1] == [r] + tail[..|tail| - 1];
      assert d[at..at + |Encode(rs)|] == d[at..next] + d[next..next + |Encode(tail)|];
    }
  }

  // The list of a file whose records all have data is the very list that was encoded.
  lemma FileRoundTrip(d: seq<byte>, at: nat, rs: seq<Record>)
    requires StartsWithList(d, at, rs) && forall i :: 0 <= i < |rs| ==> rs[i].data != []
    ensures Walk(d, at) == Walked(rs, true)
  {
    WalkAcceptsLists(d, at);
    KeptAll(rs);
  }

  // The size walker of lib/ipmi_fru.c then stops behind the same last record, as long as
  // every header sums to zero.
  lemma SizeWalkerAgrees(d: seq<byte>, at: nat, rs: seq<Record>)
    requires StartsWithList(d, at, rs)
    requires forall i :: 0 <= i < |rs| ==> rs[i].data != [] && ZeroSum(Header(rs[i]))
    ensures AdjustSize(d, at) == Some((at + TotalSize(Walk(d, at).records), true))
  {
    FileRoundTrip(d, at, rs);
    NotStopping(rs);
    hide Walk, Stops, Header, ZeroSum, AdjustSize, Encode, HasEnd;
    WalkerOnRecords(d, at, rs, |rs| - 1);
    assert rs[..|rs| - 1 + 1] == rs;
  }

  lemma NotStopping(rs: seq<Record>)
    requires rs != [] && RecordsOk(rs) && !HasEnd(rs[..|rs| - 1]) && Ends(rs[|rs| - 1])
    requires forall i :: 0 <= i < |rs| ==> rs[i].data != [] && ZeroSum(Header(rs[i]))
    ensures Stops(rs[|rs| - 1]) && forall i :: 0 <= i < |rs| - 1 ==> !Stops(rs[i])
  {
    assert forall i :: 0 <= i < |rs| - 1 ==> rs[..|rs| - 1][i] == rs[i];
  }

  lemma {:induction false} KeptAll(rs: seq<Record>)
    requires rs != [] && (forall i :: 0 <= i < |rs| ==> rs[i].data != []) && !HasEnd(rs[..|rs| - 1])
    ensures Kept(rs) == rs
  {
    if |rs| > 1 {
      assert !Ends(rs[..|rs| - 1][0]);
      var tail := rs[1..];
      assert tail[..|tail| - 1] == rs[..|rs| - 1][1..];
      KeptAll(tail);
    } else {
      assert Kept(rs[1..]) == [];
    }
  }

  // ---- the linked list ----

  // struct ipmi_ek_multi_header
  class Node {
    const record: Record
    var prev: Node?
    var next: Node?

    constructor (record: Record)
      ensures this.record == record
    {
      this.record := record;
    }
  }

  function RecordsOf(nodes: seq<Node>): (s: seq<Record>)
    ensures |s| == |nodes|
  {
    seq(|nodes|, i requires 0 <= i < |nodes| => nodes[i].record)
  }

  lemma RecordsWithout(nodes: seq<Node>, k: nat)
    requires k < |nodes|
    ensures RecordsOf(nodes[..k] + nodes[k + 1..]) == RecordsOf(nodes)[..k] + RecordsOf(nodes)[k + 1..]
  {
  }

  ghost function NodeAt(ns: seq<Node>, i: int): Node? {
    if 0 <= i < |ns| then ns[i] else null
  }

  ghost predicate Distinct(ns: seq<Node>) {
    forall i, j :: 0 <= i < j < |ns| ==> ns[i] != ns[j]
  }

  // A sequence without its k-th node.
  ghost function Without(ns: seq<Node>, k: nat): (w: seq<Node>)
    requires k < |ns|
    ensures |w| == |ns| - 1 && forall i :: 0 <= i < |w| ==> w[i] == ns[if i < k then i else i + 1]
  {
    ns[..k] + ns[k + 1..]
  }

  lemma WithoutDistinct(ns: seq<Node>, k: nat)
    requires k < |ns| && Distinct(ns)
    ensures Distinct(Without(ns, k))
  {
  }

  // A list_head and list_last pair.
  class List {
    var head: Node?
    var last: Node?
    ghost var nodes: seq<Node>

    // The nodes in order from head on by next.
    ghost predicate Forward(ns: seq<Node>)
      reads this`head, ns`next
    {
      head == NodeAt(ns, 0) && forall i {:trigger ns[i].next} :: 0 <= i < |ns| ==> ns[i].next == NodeAt(ns, i + 1)
    }

    // The nodes in reverse order from last on by prev.
    ghost predicate Backward(ns: seq<Node>)
      reads this`last, ns`prev
    {
      last == NodeAt(ns, |ns| - 1) && forall i {:trigger ns[i].prev} :: 0 <= i < |ns| ==> ns[i].prev == NodeAt(ns, i - 1)
    }

    // head, last, next and prev all describe the one sequence of distinct nodes.
    ghost predicate Valid()
      reads this, nodes
    {
      Forward(nodes) && Backward(nodes) && Distinct(nodes)
    }

    ghost function Records(): (s: seq<Record>)
      reads this
      ensures |s| == |nodes|
    {
      RecordsOf(nodes)
    }

    constructor ()
      ensures Valid() && nodes == [] && Records() == []
    {
      head, last, nodes := null, null, [];
    }

    // ipmi_ek_add_record2list
    method AddRecord(record: Node)
      requires Valid() && record !in nodes
      modifies this, nodes, record
      ensures Valid() && nodes == old(nodes) + [record]
      ensures Records() == old(Records()) + [record.record]
    {
      if head != null {
        last.next := record;
        record.prev := last;
      } else {
        head := record;
        record.prev := null;
      }
      last := record;
      record.next := null;
      nodes := nodes + [record];
    }

    // ipmi_ek_remove_record_from_list: any member, the first and the last included.
    method RemoveRecord(record: Node, ghost k: nat)
      requires Valid() && k < |nodes| && nodes[k] == record
      modifies this, nodes
      ensures Valid() && nodes == old(nodes[..k] + nodes[k + 1..])
      ensures Records() == old(Records()[..k] + Records()[k + 1..])
    {
      hide RecordsOf, Without, Forward, Backward, Distinct;
      RecordsWithout(nodes, k);
      WithoutDistinct(nodes, k);
      UnlinkForward(record, k);
      UnlinkBackward(record, k);
      nodes := nodes[..k] + nodes[k + 1..];
      assert nodes == Without(old(nodes), k);
    }

    method UnlinkForward(record: Node, ghost k: nat)
      requires Forward(nodes) && Backward(nodes) && Distinct(nodes) && k < |nodes| && nodes[k] == record
      modifies this`head, nodes`next
      ensures Forward(Without(nodes, k))
      ensures record.next == NodeAt(nodes, k + 1)
    {
      hide Without;
      if record.prev == null {
        head := record.next;
      } else {
        record.prev.next := record.next;
      }
    }

    method UnlinkBackward(record: Node, ghost k: nat)
      requires Backward(nodes) && Distinct(nodes) && k < |nodes| && nodes[k] == record && record.next == NodeAt(nodes, k + 1)
      modifies this`last, nodes`prev
      ensures Backward(Without(nodes, k))
    {
      hide Without;
      if record.next == null {
        last := record.prev;
      } else {
        record.next.prev := record.prev;
      }
    }

    // The loop every caller ends with: remove the head until there is none.
    method RemoveAll()
      requires Valid()
      modifies this, nodes
      ensures Valid() && nodes == [] && head == null && last == null
    {
      ghost var m := 0;
      while head != null
        invariant m <= |old(nodes)| && nodes == old(nodes)[m..] && Valid()
        decreases |nodes|
      {
        RemoveRecord(head, 0);
        m := m + 1;
      }
    }

    // One record found: a new node at the end of the list.
    method Append(r: Record)
      requires Valid()
      modifies this, nodes
      ensures Valid() && Records() == old(Records()) + [r]
      ensures nodes[..|nodes| - 1] == old(nodes) && |nodes| > 0 && fresh(nodes[|nodes| - 1])
    {
      var node := new Node(r);
      AddRecord(node);
    }

    // ipmi_ekanalyzer_fru_file2structure: the list is extended by what the walk keeps,
    // whatever the result.
    method FromFile(file: seq<byte>) returns (rc: int)
      requires Valid()
      modifies this, nodes
      ensures Valid() && Records() == old(Records()) + WalkFile(file).records
      ensures old(nodes) <= nodes && forall i :: |old(nodes)| <= i < |nodes| ==> fresh(nodes[i])
      ensures rc == if WalkFile(file).ok then 0 else -1
    {
      if START_DATA_OFFSET >= |file| || file[START_DATA_OFFSET] == 0 {
        return -1;
      }
      var at := file[START_DATA_OFFSET] as int * 8;
      ghost var base, done, whole := Records(), [], Walk(file, at);
      while true
        invariant Valid() && Records() == base + done
        invariant old(nodes) <= nodes && forall i :: |old(nodes)| <= i < |nodes| ==> fresh(nodes[i])
        invariant Rest(whole, done, Walk(file, at))
        decreases |file| - at
      {
        hide Walk, Valid, Records, EndOfList, RecordAt, Rest;
        WalkUnfolds(file, at, whole, done);
        if at + HEADER_SIZE > |file| {
          return -1;
        }
        var len: nat := file[at + 2];
        var next := at + HEADER_SIZE + len;
        if len > 0 {
          if next > |file| {
            return -1;
          }
          var r := RecordAt(file, at);
          Append(r);
          assert base + (done + [r]) == (base + done) + [r];
          done := done + [r];
          if EndOfList(r.format) {
            return 0;
          }
        }
        at := next;
      }
    }
  }

  // The records kept so far and what the rest of the walk keeps make up the whole.
  ghost predicate Rest(whole: Walked, done: seq<Record>, rest: Walked) {
    whole == Walked(done + rest.records, rest.ok)
  }

  lemma WalkUnfolds(d: seq<byte>, at: nat, whole: Walked, done: seq<Record>)
    requires Rest(whole, done, Walk(d, at))
    ensures at + HEADER_SIZE > |d| ==> whole == Walked(done, false)
    ensures at + HEADER_SIZE <= |d| ==>
      var next := at + HEADER_SIZE + d[at + 2] as int;
      if d[at + 2] == 0 then Rest(whole, done, Walk(d, next))
      else if next > |d| then whole == Walked(done, false)
      else
        var r := RecordAt(d, at);
        if EndOfList(r.format) then whole == Walked(done + [r], true) else Rest(whole, done + [r], Walk(d, next))
  {
    if at + HEADER_SIZE <= |d| {
      var next := at + HEADER_SIZE + d[at + 2] as int;
      if d[at + 2] > 0 && next <= |d| && !EndOfList(d[at + 1]) {
        var r := RecordAt(d, at);
        assert (done + [r]) + Walk(d, next).records == done + ([r] + Walk(d, next).records);
      }
    }
  }
}
