/**
 * The computational parts of iptc_helper3.py: the normalisation
 * `_filter_empty_field` of nested rule dictionaries, the position
 * arithmetic of `add_rule`, `batch_add_rules` and `get_rule` over a chain's
 * list of rules, and `_decode_iptc_rule` over an abstract rule record.
 * The netfilter calls behind python-iptc are not part of this model; a
 * chain is the sequence of its rules.
 */
module Iptc {
  import opened Wrappers

  /** A JSON-like value of a rule dictionary. */
  datatype Value =
    | Str(s: string)
    | Bool(b: bool)
    | List(items: seq<Value>)
    | Dict(fields: map<string, Value>)

  // ---------------------------------------------------------------------
  // _filter_empty_field
  // ---------------------------------------------------------------------

  /**
   * What `_filter_empty_field` makes of a dictionary value v: a dictionary
   * is filtered recursively; a list has its dictionary elements filtered,
   * and then becomes '' when empty or its element when it has one; any
   * other value stays.
   */
  function Filtered(v: Value): (r: Value)
    ensures v.Dict? ==> r.Dict? && r.fields.Keys == v.fields.Keys
    ensures v.Str? || v.Bool? ==> r == v
    decreases v
  {
    match v
    case Str(_) => v
    case Bool(_) => v
    case Dict(f) => Dict(map k | k in f :: Filtered(f[k]))
    case List(items) =>
      if |items| == 0 then Str("")
      else
        var kept := seq(|items|, i requires 0 <= i < |items| => if items[i].Dict? then Filtered(items[i]) else items[i]);
        if |kept| == 1 then kept[0] else List(kept)
  }

  /** `_filter_empty_field(d)` on a dictionary: same keys, each value filtered. */
  function FilteredFields(d: map<string, Value>): (r: map<string, Value>)
    ensures r.Keys == d.Keys
    ensures forall k :: k in d ==> r[k] == Filtered(d[k])
  {
    Filtered(Dict(d)).fields
  }

  /**
   * `_filter_empty_field(data_d)`: rewrites the values of the dictionary one
   * key at a time. A list of two or more elements stays the same list
   * object in the source, whose dictionaries were filtered in place; the
   * model writes that list back.
   */
  method FilterEmptyField(d: map<string, Value>) returns (r: map<string, Value>)
    ensures r == FilteredFields(d)
    decreases Dict(d)
  {
    r := d;
    var todo := d.Keys;
    while todo != {}
      invariant todo <= d.Keys && r.Keys == d.Keys
      invariant forall k :: k in todo ==> r[k] == d[k]
      invariant forall k :: k in d && k !in todo ==> r[k] == Filtered(d[k])
      decreases todo
    {
      var k :| k in todo;
      todo := todo - {k};
      var v := d[k];
      if v.Dict? {
        var sub := FilterEmptyField(v.fields);
        r := r[k := Dict(sub)];
      } else if v.List? && |v.items| != 0 {
        var items := v.items;
        var kept: seq<Value> := [];
        var i := 0;
        while i < |items|
          invariant 0 <= i <= |items| && |kept| == i
          invariant forall j :: 0 <= j < i ==> kept[j] == if items[j].Dict? then Filtered(items[j]) else items[j]
        {
          if items[i].Dict? {
            assert items[i] < v;
            var sub := FilterEmptyField(items[i].fields);
            kept := kept + [Dict(sub)];
          } else {
            kept := kept + [items[i]];
          }
          i := i + 1;
        }
        v := List(kept);
        r := r[k := v];
      }
      if v.List? && |v.items| == 1 {
        r := r[k := v.items[0]];
      } else if v.List? && |v.items| == 0 {
        r := r[k := Str("")];
      }
    }
  }

  /** An empty list becomes the empty string (`checksum-fill: []` becomes ''). */
  lemma FilterEmptyList()
    ensures Filtered(List([])) == Str("")
  {
  }

  /** A one-element list becomes its element, filtered when it is a dictionary (`dport: ['22']` becomes '22'). */
  lemma FilterSingleton(x: Value)
    ensures Filtered(List([x])) == if x.Dict? then Filtered(x) else x
  {
  }

  /** A longer list keeps its length and its order; only its dictionaries change, keeping their keys. */
  lemma FilterLongList(items: seq<Value>)
    requires |items| >= 2
    ensures Filtered(List(items)).List? && |Filtered(List(items)).items| == |items|
    ensures forall i :: 0 <= i < |items| && !items[i].Dict? ==> Filtered(List(items)).items[i] == items[i]
    ensures forall i :: 0 <= i < |items| && items[i].Dict? ==>
      Filtered(List(items)).items[i].Dict? && Filtered(List(items)).items[i].fields.Keys == items[i].fields.Keys
  {
  }

  /** A value filtering leaves as it is: no list of fewer than two elements at a dictionary value. */
  predicate Stable(v: Value)
    decreases v
  {
    match v
    case Str(_) => true
    case Bool(_) => true
    case Dict(f) => forall k :: k in f ==> Stable(f[k])
    case List(items) => |items| >= 2 && forall i :: 0 <= i < |items| ==> items[i].Dict? ==> Stable(items[i])
  }

  /** Filtering changes nothing exactly on stable values. */
  lemma {:induction false} FilterFixpoints(v: Value)
    ensures Filtered(v) == v <==> Stable(v)
    decreases v
  {
    match v
    case Str(_) =>
    case Bool(_) =>
    case Dict(f) =>
      forall k | k in f ensures Filtered(f[k]) == f[k] <==> Stable(f[k]) {
        FilterFixpoints(f[k]);
      }
      if Filtered(v) == v {
        forall k | k in f ensures Filtered(f[k]) == f[k] {
          assert Filtered(v).fields[k] == f[k];
        }
      }
    case List(items) =>
      forall i | 0 <= i < |items| && items[i].Dict? ensures Filtered(items[i]) == items[i] <==> Stable(items[i]) {
        FilterFixpoints(items[i]);
      }
      if |items| == 1 {
        assert items[0] < v;
      } else if |items| >= 2 {
        if Filtered(v) == v {
          forall i | 0 <= i < |items| && items[i].Dict? ensures Filtered(items[i]) == items[i] {
            assert Filtered(v).items[i] == items[i];
          }
        }
      }
  }

  /**
   * A singleton list is unwrapped one level per call only: [[x]] becomes
   * [x] and a second call changes it again, so filtering is not idempotent.
   */
  lemma FilterNotIdempotent()
    ensures var v := Dict(map["a" := List([List([Str("x")])])]);
      && Filtered(v) == Dict(map["a" := List([Str("x")])])
      && Filtered(Filtered(v)) == Dict(map["a" := Str("x")])
      && Filtered(Filtered(v)) != Filtered(v)
  {
    var v := Dict(map["a" := List([List([Str("x")])])]);
    var inner := List([Str("x")]);
    assert Filtered(List([inner])) == inner;
    assert Filtered(v).fields == map["a" := inner];
    assert Filtered(inner) == Str("x");
    assert Filtered(Filtered(v)).fields == map["a" := Str("x")];
    assert Filtered(Filtered(v)).fields["a"] != Filtered(v).fields["a"];
  }

  // ---------------------------------------------------------------------
  // add_rule / batch_add_rules / get_rule positions
  // ---------------------------------------------------------------------

  datatype RuleError =
    | InsertOutOfRange(index: int) // libiptc refuses an insertion index outside 0..len(rules)
    | RuleIndex(position: int)     // IndexError of rules[...] in get_rule
    | NoChain(chain: string)       // the chain of a batch entry does not exist

  /**
   * The list index a rule is inserted at for a non-zero position: p > 0
   * counts from 1 as the iptables command line does, p < 0 is added to the
   * number of rules, as Python's list.insert reads a negative index.
   */
  function InsertIndex(position: int, n: nat): int {
    if position > 0 then position - 1 else position + n
  }

  /** The rules of a chain after `add_rule(rule, position)`: 0 appends, others insert at InsertIndex. */
  function AddRule<R>(rules: seq<R>, rule: R, position: int): (r: Result<seq<R>, RuleError>)
    ensures r.Ok? <==> position == 0 || 1 <= position <= |rules| + 1 || -|rules| <= position <= -1
    ensures r.Ok? ==> |r.value| == |rules| + 1 && multiset(r.value) == multiset(rules) + multiset{rule}
    ensures r.Err? ==> r.error == InsertOutOfRange(InsertIndex(position, |rules|))
  {
    if position == 0 then Ok(rules + [rule])
    else
      var i := InsertIndex(position, |rules|);
      if 0 <= i <= |rules| then
        assert rules == rules[..i] + rules[i..];
        Ok(rules[..i] + [rule] + rules[i..])
      else Err(InsertOutOfRange(i))
  }

  /** The rule of a chain `get_rule(position)` picks, or IndexError: p > 0 counts from 1, p < 0 from the end. */
  function RuleAt<R>(rules: seq<R>, position: int): (r: Result<R, RuleError>)
    requires position != 0
    ensures r.Ok? <==> 1 <= position <= |rules| || -|rules| <= position <= -1
    ensures r.Ok? && position > 0 ==> r.value == rules[position - 1]
    ensures r.Ok? && position < 0 ==> r.value == rules[|rules| + position]
    ensures r.Err? ==> r.error == RuleIndex(position)
  {
    if position > 0 then
      if position <= |rules| then Ok(rules[position - 1]) else Err(RuleIndex(position))
    else
      if -|rules| <= position then Ok(rules[|rules| + position]) else Err(RuleIndex(position))
  }

  /**
   * A rule added at a position is found again by get_rule: at the same
   * position when it is positive, last (-1) when appended, and one further
   * from the end (p - 1) when it is negative, because insertion before
   * index len + p leaves the old rule at that index after the new one.
   */
  lemma AddThenGet<R>(rules: seq<R>, rule: R, position: int)
    requires AddRule(rules, rule, position).Ok?
    ensures var added := AddRule(rules, rule, position).value;
      var back := if position > 0 then position else position - 1;
      RuleAt(added, back) == Ok(rule)
  {
  }

  /** Adding leaves the other rules in their order around the new one. */
  lemma AddKeepsOrder<R>(rules: seq<R>, rule: R, position: int)
    requires AddRule(rules, rule, position).Ok?
    ensures var added := AddRule(rules, rule, position).value;
      var i := if position == 0 then |rules| else InsertIndex(position, |rules|);
      0 <= i <= |rules| && added[i] == rule && added[..i] == rules[..i] && added[i + 1..] == rules[i..]
  {
    var i := if position == 0 then |rules| else InsertIndex(position, |rules|);
    var added := AddRule(rules, rule, position).value;
    assert added == rules[..i] + [rule] + rules[i..];
  }

  /** One entry (chain, rule, position) of a batch. */
  datatype BatchEntry<R> = BatchEntry(chain: string, rule: R, position: int)

  /** The chains of a table after the entries of a batch, applied in order; the first failing entry aborts. */
  function BatchAdded<R>(chains: map<string, seq<R>>, batch: seq<BatchEntry<R>>): (r: Result<map<string, seq<R>>, RuleError>)
    ensures r.Ok? ==> r.value.Keys == chains.Keys
    decreases |batch|
  {
    if |batch| == 0 then Ok(chains)
    else
      var e := batch[0];
      if e.chain !in chains then Err(NoChain(e.chain))
      else
        var added := AddRule(chains[e.chain], e.rule, e.position);
        if added.Err? then Err(added.error)
        else BatchAdded(chains[e.chain := added.value], batch[1..])
  }

  /** `batch_add_rules(table, batch_rules)`: the loop over the entries. */
  method BatchAddRules<R>(chains: map<string, seq<R>>, batch: seq<BatchEntry<R>>) returns (r: Result<map<string, seq<R>>, RuleError>)
    ensures r == BatchAdded(chains, batch)
  {
    var current := chains;
    var i := 0;
    while i < |batch|
      invariant 0 <= i <= |batch|
      invariant BatchAdded(chains, batch) == BatchAdded(current, batch[i..])
    {
      var e := batch[i];
      assert batch[i..][1..] == batch[i + 1..];
      if e.chain !in current {
        return Err(NoChain(e.chain));
      }
      var added := AddRule(current[e.chain], e.rule, e.position);
      if added.Err? {
        return Err(added.error);
      }
      current := current[e.chain := added.value];
      i := i + 1;
    }
    return Ok(current);
  }

  /** Appending entries (position 0) to one chain add their rules at its end, in batch order. */
  lemma {:induction false} BatchAppends<R>(chains: map<string, seq<R>>, chain: string, rules: seq<R>)
    requires chain in chains
    ensures BatchAdded(chains, seq(|rules|, i requires 0 <= i < |rules| => BatchEntry(chain, rules[i], 0)))
      == Ok(chains[chain := chains[chain] + rules])
    decreases |rules|
  {
    var batch := seq(|rules|, i requires 0 <= i < |rules| => BatchEntry(chain, rules[i], 0));
    if |rules| == 0 {
      assert chains[chain] + rules == chains[chain];
      assert chains[chain := chains[chain] + rules] == chains;
    } else {
      var next := chains[chain := chains[chain] + [rules[0]]];
      assert batch[1..] == seq(|rules[1..]|, i requires 0 <= i < |rules[1..]| => BatchEntry(chain, rules[1..][i], 0));
      assert batch[0] == BatchEntry(chain, rules[0], 0);
      assert AddRule(chains[chain], rules[0], 0) == Ok(chains[chain] + [rules[0]]);
      assert BatchAdded(chains, batch) == BatchAdded(next, batch[1..]);
      BatchAppends(next, chain, rules[1..]);
      assert chains[chain] + [rules[0]] + rules[1..] == chains[chain] + rules;
      assert next[chain := next[chain] + rules[1..]] == chains[chain := chains[chain] + rules];
    }
  }

  // ---------------------------------------------------------------------
  // _decode_iptc_rule
  // ---------------------------------------------------------------------

  /** A match of a rule: its name and `get_all_parameters()`. */
  datatype Match = Match(name: string, params: map<string, Value>)

  /** The target of a rule: its name and `get_all_parameters()`. */
  datatype Target = Target(name: string, params: map<string, Value>)

  /** The attributes of a python-iptc rule that `_decode_iptc_rule` reads. */
  datatype Rule = Rule(
    src: string, dst: string, protocol: string,
    inInterface: Option<string>, outInterface: Option<string>,
    fragment: bool, matches: seq<Match>, target: Option<Target>)

  /** The address a rule shows when it matches any source or destination. */
  function AnyAddress(ipv6: bool): string {
    if ipv6 then "::/0" else "0.0.0.0/0.0.0.0"
  }

  /** The keys of the fields decoded before the matches. */
  const FieldNames: set<string> := {"src", "dst", "protocol", "in-interface", "out-interface", "fragment"}

  /** The fields of a rule that differ from their defaults: any address, protocol "ip", no interface, no fragment flag. */
  function BaseFields(rule: Rule, ipv6: bool): (d: map<string, Value>)
    ensures d.Keys <= FieldNames
    ensures "src" in d <==> rule.src != AnyAddress(ipv6)
    ensures "dst" in d <==> rule.dst != AnyAddress(ipv6)
    ensures "protocol" in d <==> rule.protocol != "ip"
    ensures "in-interface" in d <==> rule.inInterface.Some?
    ensures "out-interface" in d <==> rule.outInterface.Some?
    ensures "fragment" in d <==> !ipv6 && rule.fragment
    ensures "src" in d ==> d["src"] == Str(rule.src)
    ensures "dst" in d ==> d["dst"] == Str(rule.dst)
    ensures "protocol" in d ==> d["protocol"] == Str(rule.protocol)
  {
    var d1: map<string, Value> := if rule.src != AnyAddress(ipv6) then map["src" := Str(rule.src)] else map[];
    var d2 := if rule.dst != AnyAddress(ipv6) then d1["dst" := Str(rule.dst)] else d1;
    var d3 := if rule.protocol != "ip" then d2["protocol" := Str(rule.protocol)] else d2;
    var d4 := if rule.inInterface.Some? then d3["in-interface" := Str(rule.inInterface.value)] else d3;
    var d5 := if rule.outInterface.Some? then d4["out-interface" := Str(rule.outInterface.value)] else d4;
    if !ipv6 && rule.fragment then d5["fragment" := Bool(true)] else d5
  }

  /** One match into the dictionary: a first value, then a pair, then appended values. */
  function GroupStep(d: map<string, Value>, m: Match): map<string, Value> {
    if m.name !in d then d[m.name := Dict(m.params)]
    else if d[m.name].List? then d[m.name := List(d[m.name].items + [Dict(m.params)])]
    else d[m.name := List([d[m.name], Dict(m.params)])]
  }

  /** The dictionary after the matches, in order. */
  function Grouped(d: map<string, Value>, ms: seq<Match>): map<string, Value>
    decreases |ms|
  {
    if |ms| == 0 then d else GroupStep(Grouped(d, ms[..|ms| - 1]), ms[|ms| - 1])
  }

  /** The parameters of the matches named n, in order. */
  function ParamsNamed(ms: seq<Match>, n: string): (ps: seq<Value>)
    ensures forall i :: 0 <= i < |ps| ==> ps[i].Dict?
    decreases |ms|
  {
    if |ms| == 0 then []
    else ParamsNamed(ms[..|ms| - 1], n) + if ms[|ms| - 1].name == n then [Dict(ms[|ms| - 1].params)] else []
  }

  /**
   * The matches named n, for a name the dictionary did not hold, end up as
   * the parameters of the only one, or as the list of all of them in order.
   */
  lemma {:induction false} GroupedCollects(d: map<string, Value>, ms: seq<Match>, n: string)
    requires n !in d
    ensures var ps := ParamsNamed(ms, n);
      && (n in Grouped(d, ms) <==> |ps| > 0)
      && (|ps| == 1 ==> Grouped(d, ms)[n] == ps[0])
      && (|ps| >= 2 ==> Grouped(d, ms)[n] == List(ps))
    decreases |ms|
  {
    if |ms| > 0 {
      var init, m := ms[..|ms| - 1], ms[|ms| - 1];
      GroupedCollects(d, init, n);
      var before, ps0 := Grouped(d, init), ParamsNamed(init, n);
      if m.name == n && |ps0| == 1 {
        assert before[n] == ps0[0] && !ps0[0].List?;
      }
    }
  }

  /** Keys are never dropped, and every match name becomes a key. */
  lemma {:induction false} GroupedKeys(d: map<string, Value>, ms: seq<Match>)
    ensures Grouped(d, ms).Keys == d.Keys + MatchNames(ms)
    decreases |ms|
  {
    if |ms| > 0 {
      var init := ms[..|ms| - 1];
      GroupedKeys(d, init);
      forall x | x in MatchNames(ms) ensures x in MatchNames(init) + {ms[|ms| - 1].name} {
        var i :| 0 <= i < |ms| && ms[i].name == x;
        if i < |init| {
          assert init[i].name == x;
        }
      }
    }
  }

  /** The names of the matches. */
  function MatchNames(ms: seq<Match>): set<string> {
    set i | 0 <= i < |ms| :: ms[i].name
  }

  /** A target name as a key: '-' becomes '_'. */
  function Underscored(name: string): (r: string)
    ensures |r| == |name|
    ensures forall i :: 0 <= i < |name| ==> r[i] == if name[i] == '-' then '_' else name[i]
  {
    if |name| == 0 then ""
    else [if name[0] == '-' then '_' else name[0]] + Underscored(name[1..])
  }

  /** The target field: the parameters under the target name when there are any, else the bare name. */
  function WithTarget(d: map<string, Value>, target: Option<Target>): (r: map<string, Value>)
    ensures target.Some? && target.value.name != "" ==> "target" in r && r == d["target" := r["target"]]
    ensures target.None? || target.value.name == "" ==> r == d
    ensures target.Some? && target.value.name != "" && |target.value.params| > 0 ==>
      r["target"] == Dict(map[Underscored(target.value.name) := Dict(target.value.params)])
    ensures target.Some? && target.value.name != "" && |target.value.params| == 0 ==>
      r["target"] == Str(target.value.name)
  {
    if target.Some? && target.value.name != "" && |target.value.params| > 0 then
      d["target" := Dict(map[Underscored(target.value.name) := Dict(target.value.params)])]
    else if target.Some? && target.value.name != "" then
      d["target" := Str(target.value.name)]
    else d
  }

  /** The dictionary `_decode_iptc_rule` returns. */
  function Decoded(rule: Rule, ipv6: bool): map<string, Value> {
    FilteredFields(WithTarget(Grouped(BaseFields(rule, ipv6), rule.matches), rule.target))
  }

  /** `_decode_iptc_rule(rule, ipv6)`: the default-free fields, then the loop over matches, the target, and the filter. */
  method DecodeIptcRule(rule: Rule, ipv6: bool) returns (r: map<string, Value>)
    ensures r == Decoded(rule, ipv6)
  {
    var d := BaseFields(rule, ipv6);
    var i := 0;
    while i < |rule.matches|
      invariant 0 <= i <= |rule.matches|
      invariant d == Grouped(BaseFields(rule, ipv6), rule.matches[..i])
    {
      var m := rule.matches[i];
      assert rule.matches[..i + 1][..i] == rule.matches[..i];
      if m.name !in d {
        d := d[m.name := Dict(m.params)];
      } else if d[m.name].List? {
        d := d[m.name := List(d[m.name].items + [Dict(m.params)])];
      } else {
        d := d[m.name := List([d[m.name], Dict(m.params)])];
      }
      i := i + 1;
    }
    assert rule.matches[..|rule.matches|] == rule.matches;
    d := WithTarget(d, rule.target);
    r := FilterEmptyField(d);
  }

  /** No match shares its name with a decoded field. */
  ghost predicate PlainMatches(rule: Rule) {
    forall i :: 0 <= i < |rule.matches| ==> rule.matches[i].name !in FieldNames && rule.matches[i].name != "target"
  }

  /** Decoding omits the default fields and keeps the others as they are. */
  lemma DecodedOmitsDefaults(rule: Rule, ipv6: bool)
    requires PlainMatches(rule)
    ensures var d := Decoded(rule, ipv6);
      && ("src" in d <==> rule.src != AnyAddress(ipv6))
      && ("dst" in d <==> rule.dst != AnyAddress(ipv6))
      && ("protocol" in d <==> rule.protocol != "ip")
      && ("in-interface" in d <==> rule.inInterface.Some?)
      && ("out-interface" in d <==> rule.outInterface.Some?)
      && ("fragment" in d <==> !ipv6 && rule.fragment)
      && ("src" in d ==> d["src"] == Str(rule.src))
      && ("dst" in d ==> d["dst"] == Str(rule.dst))
      && ("protocol" in d ==> d["protocol"] == Str(rule.protocol))
  {
    DecodedKeepsField(rule, ipv6, "src");
    DecodedKeepsField(rule, ipv6, "dst");
    DecodedKeepsField(rule, ipv6, "protocol");
    DecodedKeepsField(rule, ipv6, "in-interface");
    DecodedKeepsField(rule, ipv6, "out-interface");
    DecodedKeepsField(rule, ipv6, "fragment");
  }

  /** A field of the rule itself is in the decoded dictionary exactly when it is not a default, with its value. */
  lemma DecodedKeepsField(rule: Rule, ipv6: bool, n: string)
    requires PlainMatches(rule) && n in FieldNames
    ensures n in Decoded(rule, ipv6) <==> n in BaseFields(rule, ipv6)
    ensures n in BaseFields(rule, ipv6) && BaseFields(rule, ipv6)[n].Str? ==> Decoded(rule, ipv6)[n] == BaseFields(rule, ipv6)[n]
  {
    var base := BaseFields(rule, ipv6);
    GroupedKeepsOthers(base, rule.matches, n);
  }

  /** A key no match is named after keeps its value through the matches. */
  lemma {:induction false} GroupedKeepsOthers(d: map<string, Value>, ms: seq<Match>, n: string)
    requires forall i :: 0 <= i < |ms| ==> ms[i].name != n
    ensures n in Grouped(d, ms) <==> n in d
    ensures n in d ==> Grouped(d, ms)[n] == d[n]
    decreases |ms|
  {
    if |ms| > 0 {
      GroupedKeepsOthers(d, ms[..|ms| - 1], n);
    }
  }

  /**
   * The matches named n, for a name that is not a decoded field, decode to
   * the filtered parameters of the only one, or to the filtered list of all
   * of them in order.
   */
  lemma DecodedMatches(rule: Rule, ipv6: bool, n: string)
    requires n !in FieldNames && n != "target"
    ensures var ps := ParamsNamed(rule.matches, n); var d := Decoded(rule, ipv6);
      && (n in d <==> |ps| > 0)
      && (|ps| == 1 ==> d[n] == Filtered(ps[0]))
      && (|ps| >= 2 ==> d[n] == Filtered(List(ps)))
  {
    GroupedCollects(BaseFields(rule, ipv6), rule.matches, n);
  }

  /** `get_rule(position)` with the rules of a chain: all decoded rules for 0, else the one picked; None instead of raising when silent. */
  function GetRule(rules: seq<Rule>, position: int, ipv6: bool, silent: bool): (r: Result<Option<Value>, RuleError>)
    ensures r.Err? <==> !silent && position != 0 && RuleAt(rules, position).Err?
    ensures position != 0 && RuleAt(rules, position).Ok? ==> r == Ok(Some(Dict(Decoded(RuleAt(rules, position).value, ipv6))))
    ensures position == 0 ==> r.Ok? && r.value.Some? && r.value.value.List? && |r.value.value.items| == |rules|
    ensures position == 0 ==> forall i :: 0 <= i < |rules| ==> r.value.value.items[i] == Dict(Decoded(rules[i], ipv6))
  {
    if position == 0 then
      Ok(Some(List(seq(|rules|, i requires 0 <= i < |rules| => Dict(Decoded(rules[i], ipv6))))))
    else
      var picked := RuleAt(rules, position);
      if picked.Ok? then Ok(Some(Dict(Decoded(picked.value, ipv6))))
      else if silent then Ok(None)
      else Err(picked.error)
  }
}
