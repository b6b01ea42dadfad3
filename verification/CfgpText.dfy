// The text form of parameters: what save prints and what the selector parser reads back
// (lib/ipmi_cfgp.c).
module CfgpText {
  import opened Bytes
  import opened Cfgp

  // ---- names ----

  function ToLower(c: char): char {
    if 'A' <= c <= 'Z' then c + ('a' - 'A') else c
  }

  // Equal but for the case of letters.
  predicate CaseEqual(a: string, b: string) {
    |a| == |b| && forall i :: 0 <= i < |a| ==> ToLower(a[i]) == ToLower(b[i])
  }

  predicate SameLetter(c: char, d: char) {
    || c == d
    || ('A' <= c <= 'Z' && d as int == c as int + 32)
    || ('a' <= c <= 'z' && d as int == c as int - 32)
  }

  // Names are the same when they differ in the case of letters only.
  lemma CaseIsIgnored(a: string, b: string)
    ensures CaseEqual(a, b) <==> |a| == |b| && forall i :: 0 <= i < |a| ==> SameLetter(a[i], b[i])
  {
    assert forall i :: 0 <= i < |a| && |a| == |b| ==> (ToLower(a[i]) == ToLower(b[i]) <==> SameLetter(a[i], b[i]));
  }

  predicate Named(p: Param, name: string) {
    p.name.Some? && CaseEqual(p.name.value, name)
  }

  lemma NamesIgnoreCase(p: Param, name: string)
    ensures Named(p, name) <==>
      p.name.Some? && |p.name.value| == |name| && forall i :: 0 <= i < |name| ==> SameLetter(p.name.value[i], name[i])
  {
    if p.name.Some? {
      CaseIsIgnored(p.name.value, name);
    }
  }

  // The first descriptor with the name.
  method LookupCfgp(table: seq<Param>, name: string) returns (found: Option<nat>)
    ensures found == Lookup(table, name)
    ensures found.Some? ==> found.value < |table| && Named(table[found.value], name)
    ensures forall i :: 0 <= i < (if found.Some? then found.value else |table|) ==> !Named(table[i], name)
  {
    var i := 0;
    while i < |table|
      invariant 0 <= i <= |table| && forall j :: 0 <= j < i ==> !Named(table[j], name)
    {
      if Named(table[i], name) {
        LookupIs(table, name, i);
        return Some(i);
      }
      i := i + 1;
    }
    LookupNone(table, name);
    return None;
  }

  function Lookup(table: seq<Param>, name: string): (found: Option<nat>)
    ensures found.Some? ==> found.value < |table| && Named(table[found.value], name)
  {
    LookupFrom(table, name, 0)
  }

  function LookupFrom(table: seq<Param>, name: string, i: nat): (found: Option<nat>)
    ensures found.Some? ==> found.value < |table| && Named(table[found.value], name)
    decreases |table| - i
  {
    if i >= |table| then None
    else if Named(table[i], name) then Some(i)
    else LookupFrom(table, name, i + 1)
  }

  lemma LookupIs(table: seq<Param>, name: string, i: nat)
    requires i < |table| && Named(table[i], name) && forall j :: 0 <= j < i ==> !Named(table[j], name)
    ensures Lookup(table, name) == Some(i)
  {
    LookupSkips(table, name, 0, i);
  }

  lemma LookupNone(table: seq<Param>, name: string)
    requires forall j :: 0 <= j < |table| ==> !Named(table[j], name)
    ensures Lookup(table, name) == None
  {
    LookupSkips(table, name, 0, |table|);
  }

  lemma {:induction false} LookupSkips(table: seq<Param>, name: string, i: nat, k: nat)
    requires i <= k <= |table| && forall j :: i <= j < k ==> !Named(table[j], name)
    ensures LookupFrom(table, name, i) == LookupFrom(table, name, k)
    decreases k - i
  {
    if i < k { LookupSkips(table, name, i + 1, k); }
  }

  // Names that differ case-insensitively.
  ghost predicate DistinctNames(table: seq<Param>) {
    forall i, j :: 0 <= i < j < |table| && table[i].name.Some? && table[j].name.Some? ==>
      !CaseEqual(table[i].name.value, table[j].name.value)
  }

  // ---- numbers ----

  const INT32_MAX := 0x7fff_ffff

  function Digit(d: nat): (c: char)
    requires d < 10
    ensures '0' <= c <= '9' && c as int == '0' as int + d
  {
    ('0' as int + d) as char
  }

  // A non-negative number as save prints it, in decimal.
  function Decimal(n: nat): (s: string)
    ensures |s| >= 1 && forall i :: 0 <= i < |s| ==> '0' <= s[i] <= '9'
  {
    if n < 10 then [Digit(n)] else Decimal(n / 10) + [Digit(n % 10)]
  }

  predicate AllDigits(s: string) {
    |s| >= 1 && forall i :: 0 <= i < |s| ==> '0' <= s[i] <= '9'
  }

  function DecimalValue(s: string): nat
    requires forall i :: 0 <= i < |s| ==> '0' <= s[i] <= '9'
  {
    if s == [] then 0 else 10 * DecimalValue(s[..|s| - 1]) + (s[|s| - 1] as int - '0' as int)
  }

  // The forms of strtol with base 0 other than a plain decimal number: signs, blanks,
  // octal and hexadecimal digits.
  type OtherForms = string -> Option<int>

  // str2int
  function StrToInt(s: string, other: OtherForms): Option<int> {
    if AllDigits(s) && (|s| == 1 || s[0] != '0') then
      if DecimalValue(s) > INT32_MAX then None else Some(DecimalValue(s))
    else other(s)
  }

  // A plain decimal number is accepted up to 2^31 - 1.
  lemma NumbersAccepted(n: nat, other: OtherForms)
    ensures StrToInt(Decimal(n), other) == if n < 0x8000_0000 then Some(n) else None
  {
    DecimalReadsBack(n);
  }

  lemma {:induction false} DecimalReadsBack(n: nat)
    ensures DecimalValue(Decimal(n)) == n && (|Decimal(n)| == 1 || Decimal(n)[0] != '0')
  {
    if n >= 10 {
      DecimalReadsBack(n / 10);
      var s := Decimal(n);
      assert s[..|s| - 1] == Decimal(n / 10);
      assert n >= 10 ==> Decimal(n / 10) != "0";
      LeadingDigit(n / 10);
    }
  }

  lemma {:induction false} LeadingDigit(n: nat)
    requires n > 0
    ensures Decimal(n)[0] != '0'
  {
    if n >= 10 { LeadingDigit(n / 10); }
  }

  // ---- ipmi_cfgp_parse_sel ----

  datatype Parsed = Used(count: nat, sel: Selector) | Invalid

  function ParseSel(table: seq<Param>, argv: seq<string>, other: OtherForms): Parsed {
    if argv == [] then Used(0, Selector(-1, -1, -1))
    else match Lookup(table, argv[0])
      case None => Invalid
      case Some(i) => ParseArgs(table[i], i, argv, other)
  }

  function ParseArgs(p: Param, i: nat, argv: seq<string>, other: OtherForms): Parsed
    requires argv != []
  {
    var set0, block0 := if p.isSet then -1 else 0, if p.hasBlocks then -1 else 0;
    if |argv| == 1 || !p.isSet then Used(1, Selector(i, set0, block0))
    else match StrToInt(argv[1], other)
      case None => Invalid
      case Some(s) =>
        if s < 0 || (s == 0 && p.firstSet != 0) then Invalid
        else if |argv| == 2 || !p.hasBlocks then Used(2, Selector(i, s, block0))
        else match StrToInt(argv[2], other)
          case None => Invalid
          case Some(b) =>
            if b < 0 || (b == 0 && p.firstBlock != 0) then Invalid else Used(3, Selector(i, s, b))
  }

  method IpmiCfgpParseSel(table: seq<Param>, argv: seq<string>, other: OtherForms) returns (used: int, sel: Selector)
    ensures match ParseSel(table, argv, other)
      case Used(n, s) => used == n && sel == s
      case Invalid => used == -1
  {
    sel := Selector(-1, -1, -1);
    if |argv| == 0 {
      return 0, sel;
    }
    var found := LookupCfgp(table, argv[0]);
    if found.None? {
      return -1, sel;
    }
    var p := table[found.value];
    sel := Selector(found.value, if p.isSet then -1 else 0, if p.hasBlocks then -1 else 0);
    if |argv| == 1 || !p.isSet {
      return 1, sel;
    }
    var s := StrToInt(argv[1], other);
    if s.None? || s.value < 0 || (s.value == 0 && p.firstSet != 0) {
      return -1, sel;
    }
    sel := sel.(setSel := s.value);
    if |argv| == 2 || !p.hasBlocks {
      return 2, sel;
    }
    var b := StrToInt(argv[2], other);
    if b.None? || b.value < 0 || (b.value == 0 && p.firstBlock != 0) {
      return -1, sel;
    }
    sel := sel.(blockSel := b.value);
    return 3, sel;
  }

  // How many selectors a parameter takes from the command line.
  function Arity(p: Param): nat {
    if !p.isSet then 0 else if !p.hasBlocks then 1 else 2
  }

  // A token that is a selector: a number, not negative, and not 0 when they start at 1.
  predicate IsSelector(token: string, first: nat, other: OtherForms) {
    && StrToInt(token, other).Some?
    && (StrToInt(token, other).value >= 1 || (first == 0 && StrToInt(token, other).value == 0))
  }

  // All about the parser: nothing is used of an empty line; otherwise the first token must
  // be a name, and as many of the following are used as there are and the parameter takes,
  // each of which must be a selector. Selectors not given stand for all, or for 0 where
  // they do not apply.
  lemma ParserIs(table: seq<Param>, argv: seq<string>, other: OtherForms)
    ensures argv == [] ==> ParseSel(table, argv, other) == Used(0, Selector(-1, -1, -1))
    ensures argv != [] ==>
      match Lookup(table, argv[0])
      case None => ParseSel(table, argv, other) == Invalid
      case Some(i) =>
        var p := table[i];
        var n := Min(|argv| - 1, Arity(p));
        var good := (n >= 1 ==> IsSelector(argv[1], p.firstSet, other)) && (n >= 2 ==> IsSelector(argv[2], p.firstBlock, other));
        if !good then ParseSel(table, argv, other) == Invalid
        else
          ParseSel(table, argv, other) == Used(1 + n, Selector(i,
            if n >= 1 then StrToInt(argv[1], other).value else if p.isSet then -1 else 0,
            if n >= 2 then StrToInt(argv[2], other).value else if p.hasBlocks then -1 else 0))
  {
    hide StrToInt;
  }

  // ---- save ----

  // What the save action prints after the command name and before the handler's values.
  function SavedSelector(p: Param, sel: Selector): seq<string>
    requires p.name.Some? && sel.setSel >= 0 && sel.blockSel >= 0
  {
    [p.name.value] + (if p.isSet then [Decimal(sel.setSel)] else []) + (if p.hasBlocks then [Decimal(sel.blockSel)] else [])
  }

  // A selector as a scan stores it, in C's int range; the first set and block are 0 or 1.
  ghost predicate Storable(table: seq<Param>, sel: Selector) {
    && 0 <= sel.param < |table| && table[sel.param].name.Some?
    && SelectorFits(table[sel.param], sel.setSel, sel.blockSel)
    && sel.setSel <= INT32_MAX && sel.blockSel <= INT32_MAX
  }

  // A name finds its own descriptor when names are distinct.
  lemma LookupOwnName(table: seq<Param>, i: nat)
    requires DistinctNames(table) && i < |table| && table[i].name.Some?
    ensures Lookup(table, table[i].name.value) == Some(i)
  {
    var name := table[i].name.value;
    forall j | 0 <= j < i ensures !Named(table[j], name) {
      if table[j].name.Some? {
        assert !CaseEqual(table[j].name.value, table[i].name.value);
      }
    }
    LookupIs(table, name, i);
  }

  // Save and parse undo each other: for any stored selector and any values behind it,
  // the saved tokens are parsed back to the same selector, using exactly the tokens that
  // belong to it, if and only if the parameter does not have blocks without sets.
  lemma SaveThenParse(table: seq<Param>, sel: Selector, values: seq<string>, other: OtherForms)
    requires DistinctNames(table) && Storable(table, sel)
    ensures sel.setSel >= 0 && sel.blockSel >= 0
    ensures var p := table[sel.param];
      var tokens := SavedSelector(p, sel);
      ParseSel(table, tokens + values, other) == Used(|tokens|, sel) <==> (p.hasBlocks ==> p.isSet)
  {
    var p := table[sel.param];
    var tokens := SavedSelector(p, sel);
    var argv := tokens + values;
    LookupOwnName(table, sel.param);
    assert argv[0] == p.name.value;
    if p.isSet {
      assert argv[1] == Decimal(sel.setSel);
      ReadsBack(sel.setSel, other);
      if p.hasBlocks {
        assert argv[2] == Decimal(sel.blockSel);
        ReadsBack(sel.blockSel, other);
      }
    }
  }

  lemma ReadsBack(n: nat, other: OtherForms)
    requires n <= INT32_MAX
    ensures StrToInt(Decimal(n), other) == Some(n)
  {
    DecimalReadsBack(n);
  }
}
