/**
 * Identity assignment (ensureMessageIds): every message node without a
 * `data-ctn-message-id` attribute gets "ctn-" followed by the decimal value of
 * a monotone counter, which then increments.
 */
module Identity {

  /** A physical host-document node. Handles are never reused for another node. */
  type Handle = nat

  /** The `data-ctn-message-id` attribute values present on host nodes. */
  type Attributes = map<Handle, string>

  function DigitChar(d: nat): (c: char)
    requires d < 10
    ensures '0' <= c <= '9'
  {
    (d + '0' as nat) as char
  }

  predicate AllDigits(s: string) {
    forall i :: 0 <= i < |s| ==> '0' <= s[i] <= '9'
  }

  /** The number a string of decimal digits denotes, most significant first. */
  function Value(s: string): nat
    requires AllDigits(s)
  {
    if s == [] then 0
    else 10 * Value(s[..|s| - 1]) + (s[|s| - 1] as nat - '0' as nat)
  }

  /** The decimal numeral JavaScript prints for a non-negative integer: digits
      only, denoting `n`, with no leading zero except for zero itself. */
  function Decimal(n: nat): (s: string)
    ensures |s| >= 1 && (n >= 10 ==> |s| >= 2)
    ensures AllDigits(s)
    ensures s[0] == '0' <==> n == 0
  {
    if n < 10 then [DigitChar(n)] else Decimal(n / 10) + [DigitChar(n % 10)]
  }

  /** The numeral denotes the number it was printed from. */
  lemma {:induction false} DecimalValue(n: nat)
    ensures Value(Decimal(n)) == n
  {
    if n >= 10 {
      var s := Decimal(n);
      assert s[..|s| - 1] == Decimal(n / 10);
      DecimalValue(n / 10);
    }
  }

  /** Distinct counters print as distinct numerals. */
  lemma {:induction false} DecimalInjective(a: nat, b: nat)
    requires Decimal(a) == Decimal(b)
    ensures a == b
  {
    if a >= 10 && b >= 10 {
      var sa, sb := Decimal(a), Decimal(b);
      assert sa[|sa| - 1] == DigitChar(a % 10) && sb[|sb| - 1] == DigitChar(b % 10);
      assert sa[..|sa| - 1] == Decimal(a / 10) && sb[..|sb| - 1] == Decimal(b / 10);
      DecimalInjective(a / 10, b / 10);
    } else if a < 10 && b < 10 {
      assert Decimal(a)[0] == DigitChar(a);
    }
  }

  const IdPrefix: string := "ctn-"

  /** The id issued for counter value `n`: `ctn-${n}`. */
  function IdFor(n: nat): (id: string)
    ensures |id| > |IdPrefix| && id[..|IdPrefix|] == IdPrefix
    ensures forall i :: |IdPrefix| <= i < |id| ==> '0' <= id[i] <= '9'
  {
    IdPrefix + Decimal(n)
  }

  /** Ids issued for different counter values differ. */
  lemma IdForInjective(a: nat, b: nat)
    ensures IdFor(a) == IdFor(b) <==> a == b
  {
    if IdFor(a) == IdFor(b) {
      assert Decimal(a) == IdFor(a)[|IdPrefix|..];
      assert Decimal(b) == IdFor(b)[|IdPrefix|..];
      DecimalInjective(a, b);
    }
  }

  /** `!node.getAttribute(MESSAGE_ATTR)` is false: the attribute is present and non-empty. */
  predicate Labelled(attrs: Attributes, h: Handle) {
    h in attrs && attrs[h] != ""
  }

  /** The attribute store together with the id counter. */
  datatype Labels = Labels(attrs: Attributes, counter: nat)

  /** One iteration of the forEach in ensureMessageIds. */
  function LabelOne(l: Labels, h: Handle): (r: Labels)
    ensures Labelled(r.attrs, h)
    ensures r.counter == l.counter + (if Labelled(l.attrs, h) then 0 else 1)
  {
    if Labelled(l.attrs, h) then l
    else Labels(l.attrs[h := IdFor(l.counter)], l.counter + 1)
  }

  /** ensureMessageIds over `nodes`, in order (a fold on the last node). */
  function AssignIds(l: Labels, nodes: seq<Handle>): (r: Labels)
    ensures r.counter >= l.counter
  {
    if nodes == [] then l
    else LabelOne(AssignIds(l, nodes[..|nodes| - 1]), nodes[|nodes| - 1])
  }

  /** The nodes among `nodes` that are not labelled in `attrs`. */
  function Unlabelled(attrs: Attributes, nodes: seq<Handle>): set<Handle> {
    set h | h in nodes && !Labelled(attrs, h)
  }

  /** Every attribute value was issued by the counter below its current value,
      and no two nodes share an id. */
  ghost predicate IssuedIds(l: Labels) {
    && (forall h :: h in l.attrs ==> exists k :: 0 <= k < l.counter && l.attrs[h] == IdFor(k))
    && (forall h1, h2 :: h1 in l.attrs && h2 in l.attrs && h1 != h2 ==> l.attrs[h1] != l.attrs[h2])
  }

  /** The counter grows by exactly the number of distinct unlabelled nodes. */
  lemma {:induction false} AssignIdsCounter(l: Labels, nodes: seq<Handle>)
    ensures AssignIds(l, nodes).counter == l.counter + |Unlabelled(l.attrs, nodes)|
  {
    if nodes != [] {
      var init := nodes[..|nodes| - 1];
      var h := nodes[|nodes| - 1];
      AssignIdsCounter(l, init);
      AssignIdsLabels(l, init);
      var p := AssignIds(l, init);
      assert nodes == init + [h];
      assert forall x :: x in nodes <==> x in init || x == h;
      var u, u' := Unlabelled(l.attrs, init), Unlabelled(l.attrs, nodes);
      if Labelled(p.attrs, h) {
        assert u' == u;
      } else {
        assert h !in u && u' == u + {h};
      }
    }
  }

  /** Labelled nodes keep their id, nodes not listed are untouched, and
      afterwards a node is labelled exactly when it was before or is listed. */
  lemma {:induction false} AssignIdsLabels(l: Labels, nodes: seq<Handle>)
    ensures var r := AssignIds(l, nodes);
      && r.counter >= l.counter
      && (forall h :: Labelled(l.attrs, h) ==> h in r.attrs && r.attrs[h] == l.attrs[h])
      && (forall h :: h !in nodes ==> (h in r.attrs <==> h in l.attrs))
      && (forall h :: h !in nodes && h in l.attrs ==> r.attrs[h] == l.attrs[h])
      && (forall h :: Labelled(r.attrs, h) <==> Labelled(l.attrs, h) || h in nodes)
  {
    if nodes != [] {
      var init := nodes[..|nodes| - 1];
      AssignIdsLabels(l, init);
      assert nodes == init + [nodes[|nodes| - 1]];
      assert forall x :: x in nodes <==> x in init || x == nodes[|nodes| - 1];
    }
  }

  /** Each newly labelled node got an id issued by this call. */
  lemma {:induction false} AssignIdsFresh(l: Labels, nodes: seq<Handle>)
    ensures forall h :: h in nodes && !Labelled(l.attrs, h) ==>
      h in AssignIds(l, nodes).attrs &&
      exists k :: l.counter <= k < AssignIds(l, nodes).counter && AssignIds(l, nodes).attrs[h] == IdFor(k)
  {
    if nodes != [] {
      var init := nodes[..|nodes| - 1];
      var h := nodes[|nodes| - 1];
      AssignIdsFresh(l, init);
      AssignIdsLabels(l, init);
      var p := AssignIds(l, init);
      var r := AssignIds(l, nodes);
      assert forall x :: x in nodes <==> x in init || x == h;
      forall x | x in nodes && !Labelled(l.attrs, x)
        ensures x in r.attrs && exists k :: l.counter <= k < r.counter && r.attrs[x] == IdFor(k)
      {
        if x in init {
          var k :| l.counter <= k < p.counter && p.attrs[x] == IdFor(k);
          assert r.attrs[x] == IdFor(k);
        } else {
          assert r.attrs[x] == IdFor(p.counter);
        }
      }
    }
  }

  /** The node at position `i`, if it is unlabelled and not listed earlier,
      gets exactly the counter value that follows the distinct unlabelled nodes
      listed before it. */
  lemma {:induction false} AssignIdsValueAt(l: Labels, nodes: seq<Handle>, i: nat)
    requires i < |nodes| && !Labelled(l.attrs, nodes[i]) && nodes[i] !in nodes[..i]
    ensures nodes[i] in AssignIds(l, nodes).attrs
    ensures AssignIds(l, nodes).attrs[nodes[i]] == IdFor(l.counter + |Unlabelled(l.attrs, nodes[..i])|)
  {
    var n := |nodes| - 1;
    var init, h := nodes[..n], nodes[n];
    if i < n {
      assert init[..i] == nodes[..i] && init[i] == nodes[i];
      AssignIdsValueAt(l, init, i);
      LabelOneKeeps(AssignIds(l, init), h, nodes[i]);
    } else {
      assert nodes[..i] == init;
      LastGetsCounter(l, init, h);
    }
  }

  /** Numbering is in list order: each newly labelled node gets the counter
      value that follows the distinct unlabelled nodes listed before it. */
  lemma AssignIdsValue(l: Labels, nodes: seq<Handle>)
    ensures forall i :: 0 <= i < |nodes| && !Labelled(l.attrs, nodes[i]) && nodes[i] !in nodes[..i] ==>
      nodes[i] in AssignIds(l, nodes).attrs &&
      AssignIds(l, nodes).attrs[nodes[i]] == IdFor(l.counter + |Unlabelled(l.attrs, nodes[..i])|)
  {
    forall i | 0 <= i < |nodes| && !Labelled(l.attrs, nodes[i]) && nodes[i] !in nodes[..i] {
      AssignIdsValueAt(l, nodes, i);
    }
  }

  /** A node neither labelled nor listed before gets the counter reached so far. */
  lemma LastGetsCounter(l: Labels, init: seq<Handle>, h: Handle)
    requires !Labelled(l.attrs, h) && h !in init
    ensures var r := LabelOne(AssignIds(l, init), h);
      h in r.attrs && r.attrs[h] == IdFor(l.counter + |Unlabelled(l.attrs, init)|)
  {
    AssignIdsLabels(l, init);
    AssignIdsCounter(l, init);
  }

  /** Labelling one node leaves every labelled node's id alone. */
  lemma LabelOneKeeps(l: Labels, h: Handle, x: Handle)
    requires Labelled(l.attrs, x)
    ensures x in LabelOne(l, h).attrs && LabelOne(l, h).attrs[x] == l.attrs[x]
  {
  }

  /** After ensureMessageIds: labelled nodes keep their id, every listed node is
      labelled, nodes not listed are untouched, each newly labelled node got an id
      issued by this call (the next counter value, in list order), and the counter
      grew by exactly the number of distinct unlabelled nodes. */
  lemma AssignIdsSpec(l: Labels, nodes: seq<Handle>)
    ensures var r := AssignIds(l, nodes);
      && r.counter == l.counter + |Unlabelled(l.attrs, nodes)|
      && (forall h :: Labelled(l.attrs, h) ==> h in r.attrs && r.attrs[h] == l.attrs[h])
      && (forall h :: h !in nodes ==> (h in r.attrs <==> h in l.attrs))
      && (forall h :: h !in nodes && h in l.attrs ==> r.attrs[h] == l.attrs[h])
      && (forall h :: Labelled(r.attrs, h) <==> Labelled(l.attrs, h) || h in nodes)
      && (forall h :: h in nodes && !Labelled(l.attrs, h) ==>
            exists k :: l.counter <= k < r.counter && r.attrs[h] == IdFor(k))
      && (forall i :: 0 <= i < |nodes| && !Labelled(l.attrs, nodes[i]) && nodes[i] !in nodes[..i] ==>
            r.attrs[nodes[i]] == IdFor(l.counter + |Unlabelled(l.attrs, nodes[..i])|))
  {
    AssignIdsCounter(l, nodes);
    AssignIdsLabels(l, nodes);
    AssignIdsFresh(l, nodes);
    AssignIdsValue(l, nodes);
  }

  /** ensureMessageIds keeps every id distinct and issued: new ids never repeat
      one another nor any id issued earlier. */
  lemma {:induction false} AssignIdsKeepsIssued(l: Labels, nodes: seq<Handle>)
    requires IssuedIds(l)
    ensures IssuedIds(AssignIds(l, nodes))
    ensures AssignIds(l, nodes).counter >= l.counter
  {
    if nodes != [] {
      var init := nodes[..|nodes| - 1];
      var h := nodes[|nodes| - 1];
      AssignIdsKeepsIssued(l, init);
      var p := AssignIds(l, init);
      if !Labelled(p.attrs, h) {
        var r := AssignIds(l, nodes);
        assert r.attrs == p.attrs[h := IdFor(p.counter)] && r.counter == p.counter + 1;
        forall x | x in r.attrs ensures exists k :: 0 <= k < r.counter && r.attrs[x] == IdFor(k) {
          if x == h {
            assert r.attrs[x] == IdFor(p.counter);
          } else {
            var k :| 0 <= k < p.counter && p.attrs[x] == IdFor(k);
            assert r.attrs[x] == IdFor(k);
          }
        }
        forall x | x in p.attrs && x != h ensures p.attrs[x] != IdFor(p.counter) {
          var k :| 0 <= k < p.counter && p.attrs[x] == IdFor(k);
          IdForInjective(k, p.counter);
        }
      }
    }
  }

  /** Idempotence: a second ensureMessageIds on the same nodes changes nothing. */
  lemma {:induction false} AssignIdsIdempotent(l: Labels, nodes: seq<Handle>)
    ensures AssignIds(AssignIds(l, nodes), nodes) == AssignIds(l, nodes)
  {
    var r := AssignIds(l, nodes);
    AssignIdsSpec(l, nodes);
    AllLabelledUnchanged(r, nodes);
  }

  lemma {:induction false} AllLabelledUnchanged(l: Labels, nodes: seq<Handle>)
    requires forall h :: h in nodes ==> Labelled(l.attrs, h)
    ensures AssignIds(l, nodes) == l
  {
    if nodes != [] {
      var init := nodes[..|nodes| - 1];
      assert forall h :: h in init ==> h in nodes;
      AllLabelledUnchanged(l, init);
    }
  }
}
