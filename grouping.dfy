/** First-seen-order grouping of the dashboard rows (`groupByConstruct` and
    `groupByService` in src/data-utils.js). Both build a dictionary keyed by a
    `|`-joined string of identifier fields, push each row onto its group, and
    return the groups in the order their keys were first inserted. */
module Grouping {
  import opened Collections
  import opened Records

  /** Construct grouping keys on category, market, service and currency;
      service grouping rolls up across currencies. */
  datatype GroupMode = ByConstruct | ByService

  /** One entry of the result: the identifier fields of the group's first row
      (currency `"Multiple"` when rolled up) and the group's rows. */
  datatype Group = Group(category: string, market: string, service: string, currency: string,
                         rows: seq<Row>)

  // ---------------------------------------------------------------------------
  // Keys
  // ---------------------------------------------------------------------------

  function KeyParts(mode: GroupMode, r: Row): seq<string>
  {
    match mode
    case ByConstruct => [r.category, r.market, r.service, r.currency]
    case ByService => [r.category, r.market, r.service]
  }

  /** The template string `${category}|${market}|${service}[|${currency}]`:
      the key fields joined with `|`. */
  function Key(mode: GroupMode, r: Row): string
  {
    match mode
    case ByConstruct => r.category + "|" + r.market + "|" + r.service + "|" + r.currency
    case ByService => r.category + "|" + r.market + "|" + r.service
  }

  /** The key is the key fields joined with `|`. */
  lemma KeyIsJoin(mode: GroupMode, r: Row)
    ensures Key(mode, r) == Join(KeyParts(mode, r), '|')
  {
    JoinThree(r.category, r.market, r.service, '|');
    if mode == ByConstruct {
      var p := KeyParts(mode, r);
      assert p[1..] == [r.market, r.service, r.currency];
      JoinThree(r.market, r.service, r.currency, '|');
    }
  }

  function HasKey(mode: GroupMode, k: string): Row -> bool
  {
    (r: Row) => Key(mode, r) == k
  }

  /** The group object created for the first row of a key, before any push. */
  function Header(mode: GroupMode, r: Row): Group
  {
    Group(r.category, r.market, r.service,
          if mode == ByConstruct then r.currency else "Multiple", [])
  }

  /** No identifier field contains the separator `|`. */
  predicate NoPipe(r: Row)
  {
    '|' !in r.category && '|' !in r.market && '|' !in r.service && '|' !in r.currency
  }

  /** Without `|` in the fields, equal keys mean equal identifier tuples. */
  lemma KeyInjective(mode: GroupMode, a: Row, b: Row)
    requires NoPipe(a) && NoPipe(b)
    requires Key(mode, a) == Key(mode, b)
    ensures KeyParts(mode, a) == KeyParts(mode, b)
  {
    var pa, pb := KeyParts(mode, a), KeyParts(mode, b);
    KeyIsJoin(mode, a);
    KeyIsJoin(mode, b);
    PartsNoPipe(mode, a);
    PartsNoPipe(mode, b);
    SplitJoin(pa, '|');
    SplitJoin(pb, '|');
    assert Join(pa, '|') == Join(pb, '|');
  }

  lemma PartsNoPipe(mode: GroupMode, r: Row)
    requires NoPipe(r)
    ensures KeyParts(mode, r) != []
    ensures forall k :: 0 <= k < |KeyParts(mode, r)| ==> '|' !in KeyParts(mode, r)[k]
  {
  }

  /** With `|` inside a field, two different identifier tuples can share a key:
      ("a|b", "c", s) and ("a", "b|c", s) both give `a|b|c|s`, and so land in
      one group. */
  lemma KeyCollision(a: Row, b: Row)
    requires a.category == "a|b" && a.market == "c"
    requires b.category == "a" && b.market == "b|c"
    requires a.service == b.service
    ensures Key(ByService, a) == Key(ByService, b)
    ensures KeyParts(ByService, a) != KeyParts(ByService, b)
  {
    assert KeyParts(ByService, a)[0] != KeyParts(ByService, b)[0];
    assert a.category + "|" + a.market == b.category + "|" + b.market;
  }

  lemma JoinThree(x: string, y: string, z: string, sep: char)
    ensures Join([x, y, z], sep) == x + [sep] + y + [sep] + z
  {
    assert [x, y, z][1..] == [y, z];
    assert [y, z][1..] == [z];
    assert Join([y, z], sep) == y + [sep] + z;
  }

  /** The distinct keys of `data` in the order they are first seen. */
  function Keys(mode: GroupMode, data: seq<Row>): (ks: seq<string>)
    ensures forall i, j :: 0 <= i < j < |ks| ==> ks[i] != ks[j]
    ensures forall k :: k in ks <==> exists p :: 0 <= p < |data| && Key(mode, data[p]) == k
    decreases |data|
  {
    if data == [] then []
    else
      var init := data[..|data| - 1];
      var ks := Keys(mode, init);
      var k := Key(mode, data[|data| - 1]);
      assert forall p :: 0 <= p < |init| ==> init[p] == data[p];
      if k in ks then ks else ks + [k]
  }

  /** Keys appear in first-seen order: every occurrence of a later key is
      preceded by an occurrence of each earlier key. */
  lemma KeysFirstSeen(mode: GroupMode, data: seq<Row>)
    ensures var ks := Keys(mode, data);
            forall i, j, p :: 0 <= i < j < |ks| && 0 <= p < |data| && Key(mode, data[p]) == ks[j] ==>
              exists q :: 0 <= q < p && Key(mode, data[q]) == ks[i]
  {
    var ks := Keys(mode, data);
    forall i, j, p | 0 <= i < j < |ks| && 0 <= p < |data| && Key(mode, data[p]) == ks[j]
      ensures exists q :: 0 <= q < p && Key(mode, data[q]) == ks[i]
    {
      FirstSeenAt(mode, data, i, j, p);
    }
  }

  lemma {:induction false} FirstSeenAt(mode: GroupMode, data: seq<Row>, i: int, j: int, p: int)
    requires 0 <= i < j < |Keys(mode, data)| && 0 <= p < |data|
    requires Key(mode, data[p]) == Keys(mode, data)[j]
    ensures exists q :: 0 <= q < p && Key(mode, data[q]) == Keys(mode, data)[i]
    decreases |data|
  {
    var init := data[..|data| - 1];
    var ks0 := Keys(mode, init);
    var ks := Keys(mode, data);
    assert forall n :: 0 <= n < |init| ==> init[n] == data[n];
    assert ks[i] == ks0[i] && ks0[i] in ks0;
    if p < |init| {
      assert Key(mode, init[p]) == ks[j];
      assert ks[j] in ks0;
      assert j < |ks0|;
      FirstSeenAt(mode, init, i, j, p);
      var q :| 0 <= q < p && Key(mode, init[q]) == ks0[i];
      assert Key(mode, data[q]) == ks[i];
    } else {
      var q :| 0 <= q < |init| && Key(mode, init[q]) == ks0[i];
      assert Key(mode, data[q]) == ks[i];
    }
  }

  // ---------------------------------------------------------------------------
  // The grouping, specified
  // ---------------------------------------------------------------------------

  /** The group of key `k`: the header of the first row with that key and all
      rows with that key, in input order. */
  function GroupOf(mode: GroupMode, data: seq<Row>, k: string): (g: Group)
    requires k in Keys(mode, data)
    ensures g.rows != []
    ensures forall r :: r in g.rows <==> r in data && Key(mode, r) == k
  {
    var rows := Where(data, HasKey(mode, k));
    assert rows != [] by {
      var p :| 0 <= p < |data| && Key(mode, data[p]) == k;
      assert data[p] in rows;
    }
    Header(mode, rows[0]).(rows := rows)
  }

  /** What `Object.values(groups)` returns: one group per distinct key, in
      first-seen order. */
  function Grouped(mode: GroupMode, data: seq<Row>): (gs: seq<Group>)
    ensures |gs| == |Keys(mode, data)|
    ensures forall j :: 0 <= j < |gs| ==> gs[j].rows != []
  {
    var ks := Keys(mode, data);
    seq(|ks|, j requires 0 <= j < |ks| => GroupOf(mode, data, ks[j]))
  }

  /** The rows of a list of groups, group after group. */
  function AllRows(groups: seq<Group>): seq<Row>
    decreases |groups|
  {
    if groups == [] then [] else AllRows(groups[..|groups| - 1]) + groups[|groups| - 1].rows
  }

  /** Group `j` holds exactly the rows with the `j`-th key, in input order and
      none missing; its identifier fields are those of the first row with that
      key, with currency `"Multiple"` in the service roll-up. */
  lemma GroupAt(mode: GroupMode, data: seq<Row>, j: int) returns (p: int)
    requires 0 <= j < |Keys(mode, data)|
    ensures var g := Grouped(mode, data)[j];
            var k := Keys(mode, data)[j];
            g.rows == Where(data, HasKey(mode, k)) && g.rows != [] &&
            (forall r :: r in g.rows <==> r in data && Key(mode, r) == k) &&
            0 <= p < |data| && Key(mode, data[p]) == k &&
            (forall q :: 0 <= q < p ==> Key(mode, data[q]) != k) &&
            g.category == data[p].category && g.market == data[p].market &&
            g.service == data[p].service &&
            g.currency == (if mode == ByConstruct then data[p].currency else "Multiple")
  {
    var k := Keys(mode, data)[j];
    assert k in Keys(mode, data);
    assert Grouped(mode, data)[j] == GroupOf(mode, data, k);
    WhereFirst(data, HasKey(mode, k));
    p :| 0 <= p < |data| && HasKey(mode, k)(data[p]) && Where(data, HasKey(mode, k))[0] == data[p] &&
         forall q :: 0 <= q < p ==> !HasKey(mode, k)(data[q]);
  }

  /** Every group holds exactly the rows with its key, in input order. */
  lemma GroupedCharacterised(mode: GroupMode, data: seq<Row>)
    ensures var gs := Grouped(mode, data);
            var ks := Keys(mode, data);
            |gs| == |ks| &&
            forall j :: 0 <= j < |gs| ==>
              gs[j].rows == Where(data, HasKey(mode, ks[j])) && IsSubseq(gs[j].rows, data) &&
              forall r :: r in gs[j].rows <==> r in data && Key(mode, r) == ks[j]
  {
    forall j | 0 <= j < |Grouped(mode, data)|
      ensures Grouped(mode, data)[j].rows == Where(data, HasKey(mode, Keys(mode, data)[j]))
      ensures IsSubseq(Grouped(mode, data)[j].rows, data)
    {
      var pj := GroupAt(mode, data, j);
      WhereSubseq(data, HasKey(mode, Keys(mode, data)[j]));
    }
  }

  /** Group keys are pairwise distinct, and every input row lands in exactly one
      group. */
  lemma GroupedExactlyOnce(mode: GroupMode, data: seq<Row>)
    ensures var gs := Grouped(mode, data);
            (forall i, j :: 0 <= i < j < |gs| ==> Key(mode, gs[i].rows[0]) != Key(mode, gs[j].rows[0])) &&
            forall p :: 0 <= p < |data| ==>
              exists j :: 0 <= j < |gs| && data[p] in gs[j].rows &&
                          forall i :: 0 <= i < |gs| && i != j ==> data[p] !in gs[i].rows
  {
    var gs := Grouped(mode, data);
    var ks := Keys(mode, data);
    forall i, j | 0 <= i < j < |gs| ensures Key(mode, gs[i].rows[0]) != Key(mode, gs[j].rows[0]) {
      GroupHeadKey(mode, data, i);
      GroupHeadKey(mode, data, j);
    }
    forall p | 0 <= p < |data|
      ensures exists j :: 0 <= j < |gs| && data[p] in gs[j].rows &&
                          forall i :: 0 <= i < |gs| && i != j ==> data[p] !in gs[i].rows
    {
      var j := RowGroup(mode, data, p);
    }
  }

  /** The one group that holds row `p`. */
  lemma RowGroup(mode: GroupMode, data: seq<Row>, p: int) returns (j: int)
    requires 0 <= p < |data|
    ensures 0 <= j < |Grouped(mode, data)| && data[p] in Grouped(mode, data)[j].rows
    ensures forall i :: 0 <= i < |Grouped(mode, data)| && i != j ==> data[p] !in Grouped(mode, data)[i].rows
  {
    var ks := Keys(mode, data);
    var k := Key(mode, data[p]);
    assert k in ks;
    j :| 0 <= j < |ks| && ks[j] == k;
    GroupIsGroupOf(mode, data, j);
    forall i | 0 <= i < |ks| && i != j ensures data[p] !in Grouped(mode, data)[i].rows {
      GroupIsGroupOf(mode, data, i);
    }
  }

  lemma GroupIsGroupOf(mode: GroupMode, data: seq<Row>, j: int)
    requires 0 <= j < |Keys(mode, data)|
    ensures Keys(mode, data)[j] in Keys(mode, data)
    ensures Grouped(mode, data)[j] == GroupOf(mode, data, Keys(mode, data)[j])
  {
  }

  /** The first row of group `j` has the `j`-th key. */
  lemma GroupHeadKey(mode: GroupMode, data: seq<Row>, j: int)
    requires 0 <= j < |Keys(mode, data)|
    ensures Key(mode, Grouped(mode, data)[j].rows[0]) == Keys(mode, data)[j]
  {
    GroupIsGroupOf(mode, data, j);
    var g := Grouped(mode, data)[j];
    assert g.rows[0] in g.rows;
  }

  /** The groups are in first-seen order of their keys. */
  lemma GroupedFirstSeenOrder(mode: GroupMode, data: seq<Row>)
    ensures var gs := Grouped(mode, data);
            forall i, j, p :: 0 <= i < j < |gs| && 0 <= p < |data| && data[p] in gs[j].rows ==>
              exists q :: 0 <= q < p && data[q] in gs[i].rows
  {
    var gs := Grouped(mode, data);
    var ks := Keys(mode, data);
    forall i, j, p | 0 <= i < j < |gs| && 0 <= p < |data| && data[p] in gs[j].rows
      ensures exists q :: 0 <= q < p && data[q] in gs[i].rows
    {
      var pi := GroupAt(mode, data, i);
      var pj := GroupAt(mode, data, j);
      FirstSeenAt(mode, data, i, j, p);
      var q :| 0 <= q < p && Key(mode, data[q]) == ks[i];
      assert data[q] in gs[i].rows;
    }
  }

  // ---------------------------------------------------------------------------
  // Partition
  // ---------------------------------------------------------------------------

  /** The rows with each of the keys `ks`, key after key. */
  function RowsByKeys(mode: GroupMode, data: seq<Row>, ks: seq<string>): seq<Row>
    decreases |ks|
  {
    if ks == [] then []
    else RowsByKeys(mode, data, ks[..|ks| - 1]) + Where(data, HasKey(mode, ks[|ks| - 1]))
  }

  lemma {:induction false} AllRowsByKeys(mode: GroupMode, data: seq<Row>, ks: seq<string>, gs: seq<Group>)
    requires |gs| == |ks|
    requires forall j :: 0 <= j < |gs| ==> gs[j].rows == Where(data, HasKey(mode, ks[j]))
    ensures AllRows(gs) == RowsByKeys(mode, data, ks)
    decreases |ks|
  {
    if ks != [] {
      AllRowsByKeys(mode, data, ks[..|ks| - 1], gs[..|gs| - 1]);
    }
  }

  lemma {:induction false} RowsByKeysSnoc(mode: GroupMode, data: seq<Row>, x: Row, ks: seq<string>)
    requires forall i, j :: 0 <= i < j < |ks| ==> ks[i] != ks[j]
    ensures multiset(RowsByKeys(mode, data + [x], ks)) ==
              multiset(RowsByKeys(mode, data, ks)) + (if Key(mode, x) in ks then multiset{x} else multiset{})
    decreases |ks|
  {
    if ks != [] {
      var ks0 := ks[..|ks| - 1];
      var k := ks[|ks| - 1];
      RowsByKeysSnoc(mode, data, x, ks0);
      WhereSnoc(data, x, HasKey(mode, k));
      assert Key(mode, x) in ks <==> Key(mode, x) in ks0 || Key(mode, x) == k;
      assert Key(mode, x) == k ==> Key(mode, x) !in ks0;
    }
  }

  lemma {:induction false} RowsByKeysCover(mode: GroupMode, data: seq<Row>, ks: seq<string>)
    requires forall i, j :: 0 <= i < j < |ks| ==> ks[i] != ks[j]
    requires forall p :: 0 <= p < |data| ==> Key(mode, data[p]) in ks
    ensures multiset(RowsByKeys(mode, data, ks)) == multiset(data)
    decreases |data|
  {
    if data == [] {
      RowsByKeysEmpty(mode, ks);
    } else {
      var init := data[..|data| - 1];
      var x := data[|data| - 1];
      assert data == init + [x];
      assert forall p :: 0 <= p < |init| ==> init[p] == data[p];
      RowsByKeysCover(mode, init, ks);
      RowsByKeysSnoc(mode, init, x, ks);
    }
  }

  lemma {:induction false} RowsByKeysEmpty(mode: GroupMode, ks: seq<string>)
    ensures RowsByKeys(mode, [], ks) == []
    decreases |ks|
  {
    if ks != [] {
      RowsByKeysEmpty(mode, ks[..|ks| - 1]);
    }
  }

  /** The groups partition the input exactly: together they hold every input
      row as often as it occurs, and nothing else. */
  lemma GroupedPartition(mode: GroupMode, data: seq<Row>)
    ensures multiset(AllRows(Grouped(mode, data))) == multiset(data)
    ensures |AllRows(Grouped(mode, data))| == |data|
  {
    GroupedCharacterised(mode, data);
    var ks := Keys(mode, data);
    AllRowsByKeys(mode, data, ks, Grouped(mode, data));
    forall p | 0 <= p < |data| ensures Key(mode, data[p]) in ks {
    }
    RowsByKeysCover(mode, data, ks);
    assert |multiset(AllRows(Grouped(mode, data)))| == |multiset(data)|;
  }

  // ---------------------------------------------------------------------------
  // Identifier tuples
  // ---------------------------------------------------------------------------

  /** Without `|` in the fields, every row of a construct group carries the
      group's category, market, service and currency, and different groups
      have different tuples. */
  lemma ConstructGroupsByTuple(data: seq<Row>)
    requires forall p :: 0 <= p < |data| ==> NoPipe(data[p])
    ensures var gs := Grouped(ByConstruct, data);
            (forall j, r :: 0 <= j < |gs| && r in gs[j].rows ==>
               r.category == gs[j].category && r.market == gs[j].market &&
               r.service == gs[j].service && r.currency == gs[j].currency) &&
            forall i, j :: 0 <= i < j < |gs| ==>
              (gs[i].category, gs[i].market, gs[i].service, gs[i].currency) !=
              (gs[j].category, gs[j].market, gs[j].service, gs[j].currency)
  {
    var gs := Grouped(ByConstruct, data);
    forall j, r | 0 <= j < |gs| && r in gs[j].rows
      ensures r.category == gs[j].category && r.market == gs[j].market &&
              r.service == gs[j].service && r.currency == gs[j].currency
    {
      GroupRowsShareTuple(ByConstruct, data, j, r);
    }
    forall i, j | 0 <= i < j < |gs|
      ensures (gs[i].category, gs[i].market, gs[i].service, gs[i].currency) !=
              (gs[j].category, gs[j].market, gs[j].service, gs[j].currency)
    {
      GroupHeadersDiffer(ByConstruct, data, i, j);
    }
  }

  /** Without `|` in the fields, every row of a service group carries the
      group's category, market and service, the currency is `"Multiple"`, and
      different groups have different triples. */
  lemma ServiceGroupsByTriple(data: seq<Row>)
    requires forall p :: 0 <= p < |data| ==> NoPipe(data[p])
    ensures var gs := Grouped(ByService, data);
            (forall j, r :: 0 <= j < |gs| && r in gs[j].rows ==>
               r.category == gs[j].category && r.market == gs[j].market &&
               r.service == gs[j].service && gs[j].currency == "Multiple") &&
            forall i, j :: 0 <= i < j < |gs| ==>
              (gs[i].category, gs[i].market, gs[i].service) != (gs[j].category, gs[j].market, gs[j].service)
  {
    var gs := Grouped(ByService, data);
    forall j, r | 0 <= j < |gs| && r in gs[j].rows
      ensures r.category == gs[j].category && r.market == gs[j].market &&
              r.service == gs[j].service && gs[j].currency == "Multiple"
    {
      GroupRowsShareTuple(ByService, data, j, r);
    }
    forall i, j | 0 <= i < j < |gs|
      ensures (gs[i].category, gs[i].market, gs[i].service) != (gs[j].category, gs[j].market, gs[j].service)
    {
      GroupHeadersDiffer(ByService, data, i, j);
    }
  }

  /** The key fields of group `j`, read from its header. */
  function HeaderParts(mode: GroupMode, g: Group): seq<string>
  {
    match mode
    case ByConstruct => [g.category, g.market, g.service, g.currency]
    case ByService => [g.category, g.market, g.service]
  }

  lemma GroupRowsShareTuple(mode: GroupMode, data: seq<Row>, j: int, r: Row)
    requires forall p :: 0 <= p < |data| ==> NoPipe(data[p])
    requires 0 <= j < |Grouped(mode, data)| && r in Grouped(mode, data)[j].rows
    ensures KeyParts(mode, r) == HeaderParts(mode, Grouped(mode, data)[j])
    ensures mode == ByService ==> Grouped(mode, data)[j].currency == "Multiple"
  {
    var p := GroupAt(mode, data, j);
    assert HeaderParts(mode, Grouped(mode, data)[j]) == KeyParts(mode, data[p]);
    assert r in data;
    var i :| 0 <= i < |data| && data[i] == r;
    KeyInjective(mode, r, data[p]);
  }

  lemma GroupHeadersDiffer(mode: GroupMode, data: seq<Row>, i: int, j: int)
    requires forall p :: 0 <= p < |data| ==> NoPipe(data[p])
    requires 0 <= i < j < |Grouped(mode, data)|
    ensures HeaderParts(mode, Grouped(mode, data)[i]) != HeaderParts(mode, Grouped(mode, data)[j])
  {
    var gs := Grouped(mode, data);
    var a := gs[i].rows[0];
    var b := gs[j].rows[0];
    var pa := GroupAt(mode, data, i);
    var pb := GroupAt(mode, data, j);
    assert a in gs[i].rows && b in gs[j].rows;
    GroupRowsShareTuple(mode, data, i, a);
    GroupRowsShareTuple(mode, data, j, b);
    assert Key(mode, a) != Key(mode, b);
  }

  /** The rows of construct group `c` are the rows of some service group in
      `ss` that carry `c`'s key, in the same order. */
  ghost predicate RolledUpIn(c: Group, ss: seq<Group>)
  {
    c.rows != [] &&
    exists s :: 0 <= s < |ss| && c.rows == Where(ss[s].rows, HasKey(ByConstruct, Key(ByConstruct, c.rows[0])))
  }

  /** Without `|` in the fields, the service roll-up coarsens the construct
      grouping: each construct group's rows are the rows of one service group
      that have the construct group's key, in input order. */
  lemma ServiceRollsUpConstructs(data: seq<Row>)
    requires forall p :: 0 <= p < |data| ==> NoPipe(data[p])
    ensures forall j :: 0 <= j < |Grouped(ByConstruct, data)| ==>
              RolledUpIn(Grouped(ByConstruct, data)[j], Grouped(ByService, data))
  {
    forall j | 0 <= j < |Grouped(ByConstruct, data)|
      ensures RolledUpIn(Grouped(ByConstruct, data)[j], Grouped(ByService, data))
    {
      var s := ServiceGroupOf(data, j);
    }
  }

  /** A row in both a construct group and a service group gives the two
      groups the same category, market and service. */
  lemma SameTriple(data: seq<Row>, j: int, s: int, r: Row)
    requires forall p :: 0 <= p < |data| ==> NoPipe(data[p])
    requires 0 <= j < |Grouped(ByConstruct, data)| && r in Grouped(ByConstruct, data)[j].rows
    requires 0 <= s < |Grouped(ByService, data)| && r in Grouped(ByService, data)[s].rows
    ensures var c, g := Grouped(ByConstruct, data)[j], Grouped(ByService, data)[s];
            g.category == c.category && g.market == c.market && g.service == c.service
  {
    GroupRowsShareTuple(ByConstruct, data, j, r);
    GroupRowsShareTuple(ByService, data, s, r);
    var c, g := Grouped(ByConstruct, data)[j], Grouped(ByService, data)[s];
    assert HeaderParts(ByConstruct, c)[..3] == HeaderParts(ByService, g);
  }

  /** Conversely, every row of a service group lies in a construct group with
      the service group's category, market and service: the service groups
      hold nothing beyond the construct groups they roll up. */
  lemma ServiceCoveredByConstructs(data: seq<Row>)
    requires forall p :: 0 <= p < |data| ==> NoPipe(data[p])
    ensures var cs, ss := Grouped(ByConstruct, data), Grouped(ByService, data);
            forall s, r :: 0 <= s < |ss| && r in ss[s].rows ==>
              exists j :: 0 <= j < |cs| && r in cs[j].rows &&
                          cs[j].category == ss[s].category && cs[j].market == ss[s].market &&
                          cs[j].service == ss[s].service
  {
    var cs, ss := Grouped(ByConstruct, data), Grouped(ByService, data);
    forall s, r | 0 <= s < |ss| && r in ss[s].rows
      ensures exists j :: 0 <= j < |cs| && r in cs[j].rows &&
                          cs[j].category == ss[s].category && cs[j].market == ss[s].market &&
                          cs[j].service == ss[s].service
    {
      var j := ConstructGroupOf(data, s, r);
    }
  }

  lemma ConstructGroupOf(data: seq<Row>, s: int, r: Row) returns (j: int)
    requires forall p :: 0 <= p < |data| ==> NoPipe(data[p])
    requires 0 <= s < |Grouped(ByService, data)| && r in Grouped(ByService, data)[s].rows
    ensures 0 <= j < |Grouped(ByConstruct, data)| && r in Grouped(ByConstruct, data)[j].rows
    ensures var c, g := Grouped(ByConstruct, data)[j], Grouped(ByService, data)[s];
            g.category == c.category && g.market == c.market && g.service == c.service
  {
    var _ := GroupAt(ByService, data, s);
    var p :| 0 <= p < |data| && data[p] == r;
    j := RowGroup(ByConstruct, data, p);
    SameTriple(data, j, s, r);
  }

  lemma ServiceGroupOf(data: seq<Row>, j: int) returns (s: int)
    requires forall p :: 0 <= p < |data| ==> NoPipe(data[p])
    requires 0 <= j < |Grouped(ByConstruct, data)|
    ensures 0 <= s < |Grouped(ByService, data)|
    ensures var c := Grouped(ByConstruct, data)[j];
            c.rows == Where(Grouped(ByService, data)[s].rows, HasKey(ByConstruct, Key(ByConstruct, c.rows[0])))
    ensures var c, g := Grouped(ByConstruct, data)[j], Grouped(ByService, data)[s];
            g.category == c.category && g.market == c.market && g.service == c.service
  {
    var c := Grouped(ByConstruct, data)[j];
    var pc := GroupAt(ByConstruct, data, j);
    var r := c.rows[0];
    assert r in c.rows;
    var ck := Key(ByConstruct, r);
    var sk := Key(ByService, r);
    assert sk in Keys(ByService, data);
    s :| 0 <= s < |Keys(ByService, data)| && Keys(ByService, data)[s] == sk;
    var ps := GroupAt(ByService, data, s);
    SameTriple(data, j, s, r);
    var both := (x: Row) => HasKey(ByService, sk)(x) && HasKey(ByConstruct, ck)(x);
    WhereWhere(data, HasKey(ByService, sk), HasKey(ByConstruct, ck), both);
    forall x | x in data ensures both(x) == HasKey(ByConstruct, ck)(x) {
      if Key(ByConstruct, x) == ck {
        KeyInjective(ByConstruct, x, r);
        var px, pr := KeyParts(ByConstruct, x), KeyParts(ByConstruct, r);
        assert px[0] == pr[0] && px[1] == pr[1] && px[2] == pr[2];
      }
    }
    WhereCongruent(data, both, HasKey(ByConstruct, ck));
  }

  // ---------------------------------------------------------------------------
  // The grouping loop
  // ---------------------------------------------------------------------------

  /** A row's key joins the keys already seen unless it is one of them. */
  lemma KeysSnoc(mode: GroupMode, data: seq<Row>, x: Row)
    ensures Keys(mode, data + [x]) ==
              if Key(mode, x) in Keys(mode, data) then Keys(mode, data) else Keys(mode, data) + [Key(mode, x)]
  {
    assert (data + [x])[..|data|] == data;
  }

  /** Adding one row to the input leaves the groups of the other keys as they
      were. */
  lemma GroupOfSnocOther(mode: GroupMode, data: seq<Row>, x: Row, k: string)
    requires k in Keys(mode, data) && k != Key(mode, x)
    ensures k in Keys(mode, data + [x])
    ensures GroupOf(mode, data + [x], k) == GroupOf(mode, data, k)
  {
    KeysSnoc(mode, data, x);
    WhereSnoc(data, x, HasKey(mode, k));
  }

  /** A row whose key is already present is appended to its group. */
  lemma GroupOfSnocOld(mode: GroupMode, data: seq<Row>, x: Row)
    requires Key(mode, x) in Keys(mode, data)
    ensures Key(mode, x) in Keys(mode, data + [x])
    ensures GroupOf(mode, data + [x], Key(mode, x)) ==
              GroupOf(mode, data, Key(mode, x)).(rows := GroupOf(mode, data, Key(mode, x)).rows + [x])
  {
    KeysSnoc(mode, data, x);
    WhereSnoc(data, x, HasKey(mode, Key(mode, x)));
  }

  /** A row with a new key starts a group of its own. */
  lemma GroupOfSnocNew(mode: GroupMode, data: seq<Row>, x: Row)
    requires Key(mode, x) !in Keys(mode, data)
    ensures Key(mode, x) in Keys(mode, data + [x])
    ensures GroupOf(mode, data + [x], Key(mode, x)) == Header(mode, x).(rows := [x])
  {
    KeysSnoc(mode, data, x);
    var k := Key(mode, x);
    WhereSnoc(data, x, HasKey(mode, k));
    WhereNone(data, HasKey(mode, k));
  }

  /** The loop state after the rows `seen`: `order` lists their keys in
      first-seen order and `table` maps each of them to its group. */
  ghost predicate Tracks(mode: GroupMode, seen: seq<Row>, table: map<string, Group>, order: seq<string>)
  {
    order == Keys(mode, seen) &&
    (forall k :: k in table <==> k in order) &&
    forall k :: k in table ==> table[k] == GroupOf(mode, seen, k)
  }

  lemma TracksIntro(mode: GroupMode, seen: seq<Row>, table: map<string, Group>, order: seq<string>)
    requires order == Keys(mode, seen)
    requires forall k :: k in table <==> k in order
    requires forall k :: k in table ==> table[k] == GroupOf(mode, seen, k)
    ensures Tracks(mode, seen, table, order)
  {
  }

  /** One iteration of the loop for a row whose key is already in the table:
      the row is pushed onto its group. */
  lemma TracksPush(mode: GroupMode, seen: seq<Row>, row: Row, table: map<string, Group>, order: seq<string>)
    requires Tracks(mode, seen, table, order)
    requires Key(mode, row) in table
    ensures Tracks(mode, seen + [row],
                   table[Key(mode, row) := table[Key(mode, row)].(rows := table[Key(mode, row)].rows + [row])], order)
  {
    var key := Key(mode, row);
    var g := table[key];
    var after := table[key := g.(rows := g.rows + [row])];
    KeysSnoc(mode, seen, row);
    assert key in Keys(mode, seen);
    assert Keys(mode, seen + [row]) == order;
    assert forall k :: k in after <==> k in table;
    PushedGroups(mode, seen, row, table, order);
    TracksIntro(mode, seen + [row], after, order);
  }

  lemma PushedGroups(mode: GroupMode, seen: seq<Row>, row: Row, table: map<string, Group>, order: seq<string>)
    requires Tracks(mode, seen, table, order)
    requires Key(mode, row) in table
    ensures var key := Key(mode, row);
            var after := table[key := table[key].(rows := table[key].rows + [row])];
            forall k :: k in after ==> k in Keys(mode, seen + [row]) && after[k] == GroupOf(mode, seen + [row], k)
  {
    var key := Key(mode, row);
    var after := table[key := table[key].(rows := table[key].rows + [row])];
    forall k | k in after
      ensures k in Keys(mode, seen + [row]) && after[k] == GroupOf(mode, seen + [row], k)
    {
      if k == key {
        GroupOfSnocOld(mode, seen, row);
      } else {
        assert after[k] == table[k];
        GroupOfSnocOther(mode, seen, row, k);
      }
    }
  }

  /** One iteration of the loop for a row with a new key: a group is created
      for it, the row is pushed onto it, and the key joins the insertion
      order. */
  lemma TracksCreate(mode: GroupMode, seen: seq<Row>, row: Row, table: map<string, Group>, order: seq<string>)
    requires Tracks(mode, seen, table, order)
    requires Key(mode, row) !in table
    ensures Tracks(mode, seen + [row], table[Key(mode, row) := Header(mode, row).(rows := [row])],
                   order + [Key(mode, row)])
  {
    var key := Key(mode, row);
    var after := table[key := Header(mode, row).(rows := [row])];
    KeysSnoc(mode, seen, row);
    forall k | k in after
      ensures k in Keys(mode, seen + [row]) && after[k] == GroupOf(mode, seen + [row], k)
    {
      if k == key {
        GroupOfSnocNew(mode, seen, row);
      } else {
        GroupOfSnocOther(mode, seen, row, k);
      }
    }
    TracksIntro(mode, seen + [row], after, order + [key]);
  }

  /** At the end of the loop the dictionary's values, in insertion order, are
      the specified groups. */
  lemma TracksAll(mode: GroupMode, data: seq<Row>, table: map<string, Group>, order: seq<string>)
    requires order == Keys(mode, data)
    requires forall k :: k in table <==> k in order
    requires forall k :: k in table ==> table[k] == GroupOf(mode, data, k)
    ensures |order| == |Grouped(mode, data)|
    ensures forall j :: 0 <= j < |order| ==> order[j] in table && table[order[j]] == Grouped(mode, data)[j]
  {
  }

  /** `groupByConstruct` / `groupByService`: one pass over the rows with a
      dictionary from key to group and the keys in insertion order, then the
      dictionary's values in that order. */
  method GroupBy(data: seq<Row>, mode: GroupMode) returns (groups: seq<Group>)
    ensures groups == Grouped(mode, data)
  {
    var table: map<string, Group> := map[];
    var order: seq<string> := [];
    for i := 0 to |data|
      invariant Tracks(mode, data[..i], table, order)
    {
      var row := data[i];
      var key := Key(mode, row);
      assert data[..i + 1] == data[..i] + [row];
      if key !in table {
        TracksCreate(mode, data[..i], row, table, order);
        var created := Header(mode, row);
        table := table[key := created.(rows := created.rows + [row])];
        order := order + [key];
      } else {
        TracksPush(mode, data[..i], row, table, order);
        table := table[key := table[key].(rows := table[key].rows + [row])];
      }
    }
    assert data[..|data|] == data;
    TracksAll(mode, data, table, order);
    groups := seq(|order|, j requires 0 <= j < |order| => table[order[j]]);
  }

  method GroupByConstruct(data: seq<Row>) returns (groups: seq<Group>)
    ensures groups == Grouped(ByConstruct, data)
  {
    groups := GroupBy(data, ByConstruct);
  }

  method GroupByService(data: seq<Row>) returns (groups: seq<Group>)
    ensures groups == Grouped(ByService, data)
  {
    groups := GroupBy(data, ByService);
  }
}
