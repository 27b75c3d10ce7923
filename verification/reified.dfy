/** The reified-edge assembler (assembler/reified_graph/assembler.py): each
    BEL edge that a converter accepts becomes a numbered statement node with
    a label and a (positive, negative) polarity, joined to its subject
    entity by a `subject` edge and to its object entity by an `object`
    edge. Both edges point into the statement node. */
module Reified {
  import opened Wrappers
  import opened Text

  /** Relation names and modifier values of the PyBEL vocabulary. */
  const INCREASES := "increases"
  const DIRECTLY_INCREASES := "directlyIncreases"
  const DECREASES := "decreases"
  const DIRECTLY_DECREASES := "directlyDecreases"
  const REGULATES := "regulates"
  const HAS_VARIANT := "hasVariant"
  const TRANSCRIBED_TO := "transcribedTo"
  const TRANSLATED_TO := "translatedTo"
  const ACTIVITY := "Activity"
  const DEGRADATION := "Degradation"

  const CAUSAL_INCREASE_RELATIONS: set<string> := {INCREASES, DIRECTLY_INCREASES}
  const CAUSAL_DECREASE_RELATIONS: set<string> := {DECREASES, DIRECTLY_DECREASES}
  const CAUSAL_RELATIONS: set<string> := CAUSAL_INCREASE_RELATIONS + CAUSAL_DECREASE_RELATIONS + {REGULATES}

  /** Labels of the statement nodes. */
  const ACTIVATES := "activates"
  const PHOSPHORYLATES := "phosphorylates"
  const HYDROXYLATES := "hydroxylates"
  const INCREASES_ABUNDANCE := "abundance"
  const DEGRADATES := "degradates"
  const PROMOTES_TRANSLATION := "translates"
  const REIF_SUBJECT := "subject"
  const REIF_OBJECT := "object"

  /** Entity functions, standing for the PyBEL DSL classes. */
  const GENE := "Gene"
  const RNA := "RNA"
  const PROTEIN := "Protein"
  const ABUNDANCE := "Abundance"

  /** A variant in an entity's `variants` list. Two protein modifications
      are equal only when namespace, name, residue code and position all
      agree. */
  datatype Variant =
    | Pmod(namespace: string, name: string, code: Option<string>, position: Option<int>)
    | OtherVariant(kind: string, detail: string)

  /** `pmod(name)`: a modification with the default namespace and neither
      residue nor position. */
  function SimplePmod(name: string): Variant {
    Pmod("bel", name, None, None)
  }

  /** A BEL entity; `variants` is `None` when the entity has no `variants`
      entry at all. */
  datatype Entity = Entity(func: string, namespace: string, name: string, variants: Option<seq<Variant>>)

  /** What the converters read from an edge's data dictionary: the
      `relation` entry, and the `modifier` of the `object` entry (`None`
      when the object part is missing, empty or has no modifier). */
  datatype EdgeData = EdgeData(relation: Option<string>, objectModifier: Option<string>)

  datatype BelEdge = BelEdge(u: Entity, v: Entity, key: string, data: EdgeData)

  /** The converter classes, in the order `reify_edge` tries them. */
  datatype Converter =
    | Translation
    | Transcription
    | Phosphorylation
    | Hydroxylation
    | Activation
    | Degradation
    | PromotesTranslation
    | Abundance
    | HasVariant

  const Converters: seq<Converter> := [
    Translation, Transcription, Phosphorylation, Hydroxylation,
    Activation, Degradation, PromotesTranslation, Abundance, HasVariant
  ]

  predicate RelationIn(d: EdgeData, rs: set<string>) {
    d.relation.Some? && d.relation.value in rs
  }

  /** `is_causal_increase`: the relation is an increase or `regulates`. */
  predicate IsCausalIncrease(d: EdgeData) {
    RelationIn(d, CAUSAL_INCREASE_RELATIONS + {REGULATES})
  }

  /** `is_causal_decrease`: the relation is a decrease or `regulates`. */
  predicate IsCausalDecrease(d: EdgeData) {
    RelationIn(d, CAUSAL_DECREASE_RELATIONS + {REGULATES})
  }

  predicate HasSimplePmod(e: Entity, name: string) {
    e.variants.Some? && SimplePmod(name) in e.variants.value
  }

  /** Each converter's `predicate`. The transcription and translation tests
      are Python's `in` between two strings, a substring test. */
  predicate Matches(c: Converter, e: BelEdge) {
    var d := e.data;
    match c
    case Translation =>
      d.relation.Some? && IsSubstring(d.relation.value, TRANSLATED_TO) && e.u.func == RNA && e.v.func == PROTEIN
    case Transcription =>
      d.relation.Some? && IsSubstring(d.relation.value, TRANSCRIBED_TO) && e.u.func == GENE && e.v.func == RNA
    case Phosphorylation =>
      RelationIn(d, CAUSAL_RELATIONS) && HasSimplePmod(e.v, "Ph")
    case Hydroxylation =>
      RelationIn(d, CAUSAL_RELATIONS) && HasSimplePmod(e.v, "Hy")
    case Activation =>
      RelationIn(d, CAUSAL_INCREASE_RELATIONS) && d.objectModifier == Some(ACTIVITY)
    case Degradation =>
      RelationIn(d, CAUSAL_INCREASE_RELATIONS) && d.objectModifier == Some(DEGRADATION)
    case PromotesTranslation =>
      RelationIn(d, CAUSAL_RELATIONS) && e.v.func == RNA
    case Abundance =>
      RelationIn(d, CAUSAL_RELATIONS)
    case HasVariant =>
      d.relation == Some(HAS_VARIANT)
  }

  /** Each converter's `target_relation`; the transcription converter
      reuses the translation label. */
  function Label(c: Converter): string
    requires c != HasVariant
  {
    match c
    case Translation => PROMOTES_TRANSLATION
    case Transcription => PROMOTES_TRANSLATION
    case Phosphorylation => PHOSPHORYLATES
    case Hydroxylation => HYDROXYLATES
    case Activation => ACTIVATES
    case Degradation => DEGRADATES
    case PromotesTranslation => PROMOTES_TRANSLATION
    case Abundance => INCREASES_ABUNDANCE
  }

  /** The 5-tuple `convert` returns. */
  datatype Conversion = Conversion(subj: Entity, edgeLabel: string, positive: bool, negative: bool, obj: Entity)

  /** What `reify_edge` makes of one edge: a conversion; `None` from the
      has-variant converter; or `None` because no converter applies. */
  datatype Outcome = Reified(c: Conversion) | Suppressed | Unmatched

  /** The first converter of `cs` whose predicate accepts `e`. */
  function FirstMatch(cs: seq<Converter>, e: BelEdge): (r: Option<Converter>)
    ensures r.None? <==> forall i :: 0 <= i < |cs| ==> !Matches(cs[i], e)
    ensures r.Some? ==> exists i :: 0 <= i < |cs| && cs[i] == r.value && Matches(cs[i], e)
                          && forall j :: 0 <= j < i ==> !Matches(cs[j], e)
  {
    if |cs| == 0 then None
    else if Matches(cs[0], e) then Some(cs[0])
    else
      var r := FirstMatch(cs[1..], e);
      assert forall i :: 1 <= i < |cs| ==> cs[i] == cs[1..][i - 1];
      r
  }

  /** `reify_edge`: the converters are tried in list order and the first
      whose predicate holds converts the edge. */
  function ReifyEdge(e: BelEdge): (r: Outcome)
    ensures r.Reified? ==> r.c.subj == e.u && r.c.obj == e.v
    ensures r.Reified? ==> (r.c.positive <==> IsCausalIncrease(e.data))
    ensures r.Reified? ==> (r.c.negative <==> IsCausalDecrease(e.data))
  {
    if Matches(Translation, e) then Convert(Translation, e)
    else if Matches(Transcription, e) then Convert(Transcription, e)
    else if Matches(Phosphorylation, e) then Convert(Phosphorylation, e)
    else if Matches(Hydroxylation, e) then Convert(Hydroxylation, e)
    else if Matches(Activation, e) then Convert(Activation, e)
    else if Matches(Degradation, e) then Convert(Degradation, e)
    else if Matches(PromotesTranslation, e) then Convert(PromotesTranslation, e)
    else if Matches(Abundance, e) then Convert(Abundance, e)
    else if Matches(HasVariant, e) then Convert(HasVariant, e)
    else Unmatched
  }

  /** `converter.convert(u, v, key, edge_data)` */
  function Convert(c: Converter, e: BelEdge): Outcome {
    if c == HasVariant then Suppressed
    else Reified(Conversion(e.u, Label(c), IsCausalIncrease(e.data), IsCausalDecrease(e.data), e.v))
  }

  /** `reify_edge` is the loop over the converter list: the outcome is the
      conversion of the first converter whose predicate holds, and the edge
      is unmatched exactly when none holds. */
  lemma ReifyEdgeIsFirstMatch(e: BelEdge)
    ensures ReifyEdge(e) == match FirstMatch(Converters, e) case Some(c) => Convert(c, e) case None => Unmatched
    ensures ReifyEdge(e).Unmatched? <==> forall i :: 0 <= i < |Converters| ==> !Matches(Converters[i], e)
  {
    ReifyEdgeByFirst(e);
    var f := FirstMatch(Converters, e);
    if f.Some? {
      assert !Convert(f.value, e).Unmatched?;
    }
  }

  /** The outcome of `reify_edge` is that of the first converter that
      accepts the edge. */
  lemma ReifyEdgeByFirst(e: BelEdge)
    ensures ReifyEdge(e) == match FirstMatch(Converters, e) case Some(c) => Convert(c, e) case None => Unmatched
  {
    var t5 := [Degradation, PromotesTranslation, Abundance, HasVariant];
    var t4 := [Activation] + t5;
    var t3 := [Hydroxylation] + t4;
    var t2 := [Phosphorylation] + t3;
    var t1 := [Transcription] + t2;
    assert Converters == [Translation] + t1;
    FirstMatchCons(Translation, t1, e);
    if Matches(Translation, e) { return; }
    FirstMatchCons(Transcription, t2, e);
    if Matches(Transcription, e) { return; }
    FirstMatchCons(Phosphorylation, t3, e);
    if Matches(Phosphorylation, e) { return; }
    FirstMatchCons(Hydroxylation, t4, e);
    if Matches(Hydroxylation, e) { return; }
    FirstMatchCons(Activation, t5, e);
    if Matches(Activation, e) { return; }
    ReifyEdgeByFirstTail(e);
  }

  /** The last four converters, once the first five have declined. */
  lemma ReifyEdgeByFirstTail(e: BelEdge)
    requires !Matches(Translation, e) && !Matches(Transcription, e) && !Matches(Phosphorylation, e)
    requires !Matches(Hydroxylation, e) && !Matches(Activation, e)
    ensures ReifyEdge(e)
            == match FirstMatch([Degradation, PromotesTranslation, Abundance, HasVariant], e)
               case Some(c) => Convert(c, e) case None => Unmatched
  {
    var t8 := [HasVariant];
    var t7 := [Abundance] + t8;
    var t6 := [PromotesTranslation] + t7;
    assert [Degradation, PromotesTranslation, Abundance, HasVariant] == [Degradation] + t6;
    FirstMatchCons(Degradation, t6, e);
    if Matches(Degradation, e) { return; }
    FirstMatchCons(PromotesTranslation, t7, e);
    if Matches(PromotesTranslation, e) { return; }
    FirstMatchCons(Abundance, t8, e);
    if Matches(Abundance, e) { return; }
    FirstMatchCons(HasVariant, [], e);
  }

  lemma FirstMatchCons(c: Converter, rest: seq<Converter>, e: BelEdge)
    ensures FirstMatch([c] + rest, e) == if Matches(c, e) then Some(c) else FirstMatch(rest, e)
  {
    assert ([c] + rest)[1..] == rest;
  }

  /** No causal relation name is a substring of `transcribedTo` or
      `translatedTo`, so the central-dogma converters never see a causal
      edge: every causal name ends in `es`, and neither target contains
      `es`. */
  lemma CausalIsNotDogma(rel: string)
    requires rel in CAUSAL_RELATIONS
    ensures !IsSubstring(rel, TRANSLATED_TO) && !IsSubstring(rel, TRANSCRIBED_TO)
  {
    assert rel[|rel| - 2] == 'e' && rel[|rel| - 1] == 's';
    NotSubstringByLastPair(rel, TRANSLATED_TO);
    NotSubstringByLastPair(rel, TRANSCRIBED_TO);
  }

  /** `p` does not occur in `s` when its last two characters never occur
      side by side in `s`. */
  lemma NotSubstringByLastPair(p: string, s: string)
    requires |p| >= 2
    requires forall k :: 0 <= k < |s| - 1 ==> !(s[k] == p[|p| - 2] && s[k + 1] == p[|p| - 1])
    ensures !IsSubstring(p, s)
  {
    forall i, j | 0 <= i <= j <= |s|
      ensures s[i..j] != p
    {
      if j - i == |p| {
        assert !(s[j - 2] == p[|p| - 2] && s[j - 1] == p[|p| - 1]);
        assert s[i..j][|p| - 2] == s[j - 2] && s[i..j][|p| - 1] == s[j - 1];
      }
    }
  }

  /** `p` does not occur in `s` when one of its characters is missing from `s`. */
  lemma NotSubstringByMissingChar(p: string, s: string, c: char)
    requires c in p && c !in s
    ensures !IsSubstring(p, s)
  {
    forall i, j | 0 <= i <= j <= |s|
      ensures s[i..j] != p
    {
      assert forall x :: x in s[i..j] ==> x in s;
    }
  }

  /** The label a causal edge gets, stated without reference to the
      converter list: phosphorylation and hydroxylation of the object come
      first, then activity and degradation modifiers of increases, then an
      RNA object, and otherwise the edge changes an abundance. */
  lemma CausalLabel(e: BelEdge)
    requires RelationIn(e.data, CAUSAL_RELATIONS)
    ensures ReifyEdge(e).Reified?
    ensures ReifyEdge(e).c.edgeLabel ==
      if HasSimplePmod(e.v, "Ph") then PHOSPHORYLATES
      else if HasSimplePmod(e.v, "Hy") then HYDROXYLATES
      else if RelationIn(e.data, CAUSAL_INCREASE_RELATIONS) && e.data.objectModifier == Some(ACTIVITY) then ACTIVATES
      else if RelationIn(e.data, CAUSAL_INCREASE_RELATIONS) && e.data.objectModifier == Some(DEGRADATION) then DEGRADATES
      else if e.v.func == RNA then PROMOTES_TRANSLATION
      else INCREASES_ABUNDANCE
  {
    CausalIsNotDogma(e.data.relation.value);
  }

  /** A relation outside the causal ones is reified only by the
      central-dogma converters; `hasVariant` edges are dropped on purpose
      and every other such edge is reported as unconvertible. */
  lemma NonCausalOutcome(e: BelEdge)
    requires !RelationIn(e.data, CAUSAL_RELATIONS)
    ensures ReifyEdge(e).Reified? <==> Matches(Translation, e) || Matches(Transcription, e)
    ensures ReifyEdge(e).Reified? ==> ReifyEdge(e).c.edgeLabel == PROMOTES_TRANSLATION
    ensures ReifyEdge(e) == Suppressed <==> e.data.relation == Some(HAS_VARIANT)
  {
    if e.data.relation == Some(HAS_VARIANT) {
      NotSubstringByMissingChar(HAS_VARIANT, TRANSLATED_TO, 'V');
      NotSubstringByMissingChar(HAS_VARIANT, TRANSCRIBED_TO, 'V');
    }
  }

  /** The substring test accepts relation names other than `translatedTo`:
      any piece of it, such as `To`, or even the empty string. */
  lemma TranslationAcceptsSubstrings()
    ensures IsSubstring("To", TRANSLATED_TO) && IsSubstring("", TRANSLATED_TO)
    ensures var p := Entity(PROTEIN, "HGNC", "X", None);
            var r := Entity(RNA, "HGNC", "X", None);
            ReifyEdge(BelEdge(r, p, "k", EdgeData(Some("To"), None))).Reified?
  {
    assert TRANSLATED_TO[10..12] == "To";
    assert TRANSLATED_TO[0..0] == "";
  }

  /** A statement node's attributes. */
  datatype Statement = Statement(edgeLabel: string, positive: bool, negative: bool)

  /** The `networkx.DiGraph` `reify_bel_graph` returns: the entities, the
      statement nodes numbered from 0, and the label of each
      entity-to-statement edge. */
  datatype ReifiedGraph = ReifiedGraph(
    entities: set<Entity>,
    statements: map<nat, Statement>,
    roles: map<(Entity, nat), string>)

  /** What `reify_edge` makes of each edge, in order. */
  function Outcomes(edges: seq<BelEdge>): (os: seq<Outcome>)
    ensures |os| == |edges|
    ensures forall i :: 0 <= i < |edges| ==> os[i] == ReifyEdge(edges[i])
  {
    seq(|edges|, i requires 0 <= i < |edges| => ReifyEdge(edges[i]))
  }

  /** The conversions among the outcomes, in order. */
  function Conversions(os: seq<Outcome>): (r: seq<Conversion>)
    ensures |r| <= |os|
    ensures forall c :: c in r <==> Reified(c) in os
  {
    if |os| == 0 then []
    else
      assert forall o :: o in os <==> o in os[..|os| - 1] || o == os[|os| - 1];
      Conversions(os[..|os| - 1]) + match os[|os| - 1] case Reified(c) => [c] case _ => []
  }

  /** A single outcome contributes its conversion, if it is one. */
  lemma ConversionsOfOne(o: Outcome)
    ensures Conversions([o]) == if o.Reified? then [o.c] else []
  {
    assert [o][..0] == [];
  }

  /** The conversions of two runs of outcomes, one after the other, are
      those of the first followed by those of the second: the list keeps
      the order of the outcomes. */
  lemma {:induction false} ConversionsAppend(a: seq<Outcome>, b: seq<Outcome>)
    ensures Conversions(a + b) == Conversions(a) + Conversions(b)
    decreases |b|
  {
    if |b| == 0 {
      assert a + b == a;
    } else {
      ConversionsAppend(a, b[..|b| - 1]);
      assert (a + b)[..|a + b| - 1] == a + b[..|b| - 1];
      assert (a + b)[|a + b| - 1] == b[|b| - 1];
    }
  }

  /** One accepted edge: statement number `next(gen)`, then the subject
      edge, then the object edge, whose label wins when subject and object
      are the same entity. */
  /** The statement node a conversion becomes. */
  function StatementOf(c: Conversion): Statement {
    Statement(c.edgeLabel, c.positive, c.negative)
  }

  function AddStatement(g: ReifiedGraph, c: Conversion): ReifiedGraph {
    var id := |g.statements|;
    ReifiedGraph(
      g.entities + {c.subj, c.obj},
      g.statements[id := StatementOf(c)],
      g.roles[(c.subj, id) := REIF_SUBJECT][(c.obj, id) := REIF_OBJECT])
  }

  const EmptyReified: ReifiedGraph := ReifiedGraph({}, map[], map[])

  /** The loop of `reify_bel_graph` over the outcomes of the edges: one
      statement node per conversion, numbered from 0 by the `count()`
      generator, which advances only on a conversion. */
  function Assemble(os: seq<Outcome>): (r: ReifiedGraph)
    ensures |r.statements| == |Conversions(os)|
    ensures forall i :: i in r.statements <==> 0 <= i < |Conversions(os)|
  {
    if |os| == 0 then EmptyReified
    else
      var g := Assemble(os[..|os| - 1]);
      match os[|os| - 1]
      case Reified(c) => AddStatement(g, c)
      case _ => g
  }

  /** `reify_bel_graph` over the edges in the order the BEL graph yields
      them. */
  function Reify(edges: seq<BelEdge>): (r: ReifiedGraph)
    ensures |r.statements| == |Conversions(Outcomes(edges))|
  {
    Assemble(Outcomes(edges))
  }

  /** Statement `i` carries the label and polarity of the `i`-th
      conversion. */
  lemma {:induction false} AssembleStatements(os: seq<Outcome>)
    ensures forall i :: 0 <= i < |Conversions(os)| ==> Assemble(os).statements[i] == StatementOf(Conversions(os)[i])
  {
    if |os| > 0 {
      var front := os[..|os| - 1];
      AssembleStatements(front);
      var cs0 := Conversions(front);
      match os[|os| - 1]
      case Reified(c) =>
        assert Conversions(os) == cs0 + [c];
        assert Assemble(os) == AddStatement(Assemble(front), c);
        StatementsStep(Assemble(front), cs0, c);
      case _ =>
        assert Conversions(os) == cs0;
        assert Assemble(os) == Assemble(front);
    }
  }

  /** Adding a statement keeps the earlier ones and numbers the new one
      after them. */
  lemma StatementsStep(g: ReifiedGraph, cs0: seq<Conversion>, c: Conversion)
    requires |g.statements| == |cs0| && forall i :: i in g.statements <==> 0 <= i < |cs0|
    requires forall i :: 0 <= i < |cs0| ==> g.statements[i] == StatementOf(cs0[i])
    ensures forall i :: 0 <= i < |cs0 + [c]| ==> AddStatement(g, c).statements[i] == StatementOf((cs0 + [c])[i])
  {
    var cs := cs0 + [c];
    assert forall i :: 0 <= i < |cs0| ==> cs[i] == cs0[i];
  }

  /** Every conversion has its subject edge and its object edge, and every
      entity-to-statement edge is one of those. */
  lemma {:induction false} AssembleRoleEdges(os: seq<Outcome>)
    ensures var cs := Conversions(os); var r := Assemble(os);
      && (forall i: nat :: i < |cs| ==> (cs[i].subj, i) in r.roles && (cs[i].obj, i) in r.roles)
      && (forall p: (Entity, nat) :: p in r.roles ==> p.1 < |cs| && (p.0 == cs[p.1].subj || p.0 == cs[p.1].obj))
  {
    if |os| > 0 {
      var front := os[..|os| - 1];
      AssembleRoleEdges(front);
      var cs0 := Conversions(front);
      var g := Assemble(front);
      match os[|os| - 1]
      case Reified(c) =>
        var cs := cs0 + [c];
        assert Conversions(os) == cs;
        var r := AddStatement(g, c);
        assert Assemble(os) == r;
        assert |g.statements| == |cs0|;
        assert cs[|cs0|] == c;
        assert forall i: nat :: i < |cs0| ==> cs[i] == cs0[i];
      case Suppressed =>
        assert Conversions(os) == cs0;
        assert Assemble(os) == g;
      case Unmatched =>
        assert Conversions(os) == cs0;
        assert Assemble(os) == g;
    }
  }

  /** The role labels `reify_bel_graph` promises for conversions `cs`. */
  predicate RolesLabelled(cs: seq<Conversion>, roles: map<(Entity, nat), string>) {
    && (forall i: nat :: i < |cs| ==> (cs[i].obj, i) in roles && roles[(cs[i].obj, i)] == REIF_OBJECT)
    && (forall i: nat :: i < |cs| && cs[i].subj != cs[i].obj ==>
          (cs[i].subj, i) in roles && roles[(cs[i].subj, i)] == REIF_SUBJECT)
  }

  /** Every object edge is labelled `object`; a subject edge is labelled
      `subject` unless subject and object coincide, in which case the single
      edge keeps the later `object` label. */
  lemma {:induction false} AssembleRoleLabels(os: seq<Outcome>)
    ensures RolesLabelled(Conversions(os), Assemble(os).roles)
  {
    if |os| > 0 {
      var front := os[..|os| - 1];
      AssembleRoleLabels(front);
      var cs0 := Conversions(front);
      var g := Assemble(front);
      match os[|os| - 1]
      case Reified(c) =>
        var cs := cs0 + [c];
        assert Conversions(os) == cs;
        var r := AddStatement(g, c);
        assert Assemble(os) == r;
        var id := |cs0|;
        assert |g.statements| == id;
        forall i: nat | i < |cs|
          ensures (cs[i].obj, i) in r.roles && r.roles[(cs[i].obj, i)] == REIF_OBJECT
          ensures cs[i].subj != cs[i].obj ==> (cs[i].subj, i) in r.roles && r.roles[(cs[i].subj, i)] == REIF_SUBJECT
        {
          if i < id {
            assert cs[i] == cs0[i];
            assert (cs0[i].obj, i) in g.roles && g.roles[(cs0[i].obj, i)] == REIF_OBJECT;
          } else {
            assert cs[i] == c;
          }
        }
      case Suppressed =>
        assert Conversions(os) == cs0;
        assert Assemble(os) == g;
      case Unmatched =>
        assert Conversions(os) == cs0;
        assert Assemble(os) == g;
    }
  }

  /** The entity nodes are exactly the entities that have a role edge. */
  lemma {:induction false} AssembleEntities(os: seq<Outcome>)
    ensures var r := Assemble(os);
      r.entities == set p | p in r.roles :: p.0
  {
    if |os| > 0 {
      var front := os[..|os| - 1];
      AssembleEntities(front);
      var g := Assemble(front);
      match os[|os| - 1]
      case Reified(c) =>
        var r := AddStatement(g, c);
        assert Assemble(os) == r;
        var id := |g.statements|;
        assert r.roles.Keys == g.roles.Keys + {(c.subj, id), (c.obj, id)};
        assert (set p | p in r.roles :: p.0) == (set p | p in g.roles :: p.0) + {c.subj, c.obj};
      case Suppressed =>
        assert Assemble(os) == g;
      case Unmatched =>
        assert Assemble(os) == g;
    }
  }

  /** Edges that are dropped leave no trace: the reified graph of outcomes
      none of which is a conversion is empty. */
  lemma {:induction false} NothingConvertedMeansEmpty(os: seq<Outcome>)
    requires forall i :: 0 <= i < |os| ==> !os[i].Reified?
    ensures Assemble(os) == EmptyReified
  {
    if |os| > 0 {
      NothingConvertedMeansEmpty(os[..|os| - 1]);
    }
  }

  lemma AssembleOne(o: Outcome)
    ensures Assemble([o]) == match o case Reified(c) => AddStatement(EmptyReified, c) case _ => EmptyReified
  {
    assert [o][..0] == [];
  }

  lemma ReifyOne(e: BelEdge)
    ensures Reify([e]) == match ReifyEdge(e) case Reified(c) => AddStatement(EmptyReified, c) case _ => EmptyReified
  {
    assert Outcomes([e]) == [ReifyEdge(e)];
    AssembleOne(ReifyEdge(e));
  }

  lemma ReifyTwo(e1: BelEdge, e2: BelEdge, c1: Conversion, c2: Conversion)
    requires ReifyEdge(e1) == Reified(c1) && ReifyEdge(e2) == Reified(c2)
    ensures Reify([e1, e2]) == AddStatement(AddStatement(EmptyReified, c1), c2)
  {
    var os := [Reified(c1), Reified(c2)];
    assert Outcomes([e1, e2]) == os;
    assert os[..1] == [Reified(c1)];
    AssembleOne(Reified(c1));
  }

  /** Entities of the unit tests. */
  const cdk5 := Entity(PROTEIN, "HGNC", "CDK5", None)
  const gsk3b := Entity(PROTEIN, "HGNC", "GSK3B", None)
  const casp8 := Entity(PROTEIN, "HGNC", "CASP8", None)
  const pTau := Entity(PROTEIN, "HGNC", "MAPT", Some([SimplePmod("Ph")]))
  const oxaliplatin := Entity(ABUNDANCE, "CHEBI", "oxaliplatin", None)
  const ros := Entity(ABUNDANCE, "MESHC", "Reactive Oxygen Species", None)
  const microglia := Entity(ABUNDANCE, "MeSH", "Microglia", None)
  const abeta := Entity(ABUNDANCE, "CHEBI", "amyloid-beta", None)
  const ctnnb1 := Entity(PROTEIN, "HGNC", "CTNNB1", None)
  const birc5 := Entity(RNA, "HGNC", "BIRC5", None)

  /** The graph a single conversion gives. */
  function Single(u: Entity, edgeLabel: string, positive: bool, negative: bool, v: Entity): ReifiedGraph {
    ReifiedGraph({u, v}, map[0 := Statement(edgeLabel, positive, negative)], map[(u, 0) := REIF_SUBJECT, (v, 0) := REIF_OBJECT])
  }

  /** `act(p(CDK5)) -| p(MAPT, pmod(Ph))`: a dephosphorylation. */
  lemma TestDephosphorylates()
    ensures Reify([BelEdge(cdk5, pTau, "k", EdgeData(Some(DIRECTLY_DECREASES), None))])
         == Single(cdk5, PHOSPHORYLATES, false, true, pTau)
  {
    var e := BelEdge(cdk5, pTau, "k", EdgeData(Some(DIRECTLY_DECREASES), None));
    assert HasSimplePmod(pTau, "Ph");
    CausalLabel(e);
    ReifyOne(e);
  }

  /** `act(p(CDK5)) => p(MAPT, pmod(Ph))`: a phosphorylation. */
  lemma TestPhosphorylates()
    ensures Reify([BelEdge(cdk5, pTau, "k", EdgeData(Some(DIRECTLY_INCREASES), None))])
         == Single(cdk5, PHOSPHORYLATES, true, false, pTau)
  {
    var e := BelEdge(cdk5, pTau, "k", EdgeData(Some(DIRECTLY_INCREASES), None));
    assert HasSimplePmod(pTau, "Ph");
    CausalLabel(e);
    ReifyOne(e);
  }

  /** `p(CDK5) => act(p(CASP8))`: an activation. */
  lemma TestActivates()
    ensures Reify([BelEdge(cdk5, casp8, "k", EdgeData(Some(DIRECTLY_INCREASES), Some(ACTIVITY)))])
         == Single(cdk5, ACTIVATES, true, false, casp8)
  {
    var e := BelEdge(cdk5, casp8, "k", EdgeData(Some(DIRECTLY_INCREASES), Some(ACTIVITY)));
    CausalLabel(e);
    ReifyOne(e);
  }

  /** `a(oxaliplatin) -> a(ROS)`: a change of abundance. */
  lemma TestIncreasesAbundance()
    ensures Reify([BelEdge(oxaliplatin, ros, "k", EdgeData(Some(INCREASES), None))])
         == Single(oxaliplatin, INCREASES_ABUNDANCE, true, false, ros)
  {
    var e := BelEdge(oxaliplatin, ros, "k", EdgeData(Some(INCREASES), None));
    CausalLabel(e);
    ReifyOne(e);
  }

  /** `a(Microglia) -> deg(a(amyloid-beta))`: a degradation. */
  lemma TestDegradates()
    ensures Reify([BelEdge(microglia, abeta, "k", EdgeData(Some(INCREASES), Some(DEGRADATION)))])
         == Single(microglia, DEGRADATES, true, false, abeta)
  {
    var e := BelEdge(microglia, abeta, "k", EdgeData(Some(INCREASES), Some(DEGRADATION)));
    CausalLabel(e);
    ReifyOne(e);
  }

  /** `act(p(CTNNB1)) -> r(BIRC5)`: promoted translation. */
  lemma TestPromotesTranslation()
    ensures Reify([BelEdge(ctnnb1, birc5, "k", EdgeData(Some(INCREASES), None))])
         == Single(ctnnb1, PROMOTES_TRANSLATION, true, false, birc5)
  {
    var e := BelEdge(ctnnb1, birc5, "k", EdgeData(Some(INCREASES), None));
    CausalLabel(e);
    ReifyOne(e);
  }

  /** Two kinases phosphorylating the same protein give two statements. */
  lemma TestTwoPhosphorylations()
    ensures var r := Reify([BelEdge(cdk5, pTau, "k", EdgeData(Some(DIRECTLY_INCREASES), None)),
                            BelEdge(gsk3b, pTau, "k", EdgeData(Some(DIRECTLY_INCREASES), None))]);
      && r.statements == map[0 := Statement(PHOSPHORYLATES, true, false), 1 := Statement(PHOSPHORYLATES, true, false)]
      && r.roles == map[(cdk5, 0) := REIF_SUBJECT, (pTau, 0) := REIF_OBJECT,
                        (gsk3b, 1) := REIF_SUBJECT, (pTau, 1) := REIF_OBJECT]
      && r.entities == {cdk5, gsk3b, pTau}
  {
    var e1 := BelEdge(cdk5, pTau, "k", EdgeData(Some(DIRECTLY_INCREASES), None));
    var e2 := BelEdge(gsk3b, pTau, "k", EdgeData(Some(DIRECTLY_INCREASES), None));
    assert HasSimplePmod(pTau, "Ph");
    CausalLabel(e1);
    CausalLabel(e2);
    ReifyTwo(e1, e2, Conversion(cdk5, PHOSPHORYLATES, true, false, pTau), Conversion(gsk3b, PHOSPHORYLATES, true, false, pTau));
  }

  /** What the graph says about each entity, ignoring how statements are
      numbered: the statements it takes part in. */
  function Signature(r: ReifiedGraph): set<(Entity, Statement)> {
    set k | k in r.roles && k.1 in r.statements :: (k.0, r.statements[k.1])
  }

  /** Two conversions give two statements, numbered 0 and 1, each tied to
      its subject and object. */
  lemma TwoStatements(c1: Conversion, c2: Conversion)
    ensures var r := AddStatement(AddStatement(EmptyReified, c1), c2);
      && r.entities == {c1.subj, c1.obj, c2.subj, c2.obj}
      && r.statements.Keys == {0, 1}
      && Signature(r) == {(c1.subj, StatementOf(c1)), (c1.obj, StatementOf(c1)),
                          (c2.subj, StatementOf(c2)), (c2.obj, StatementOf(c2))}
  {
    var r1 := AddStatement(EmptyReified, c1);
    assert r1.statements == map[0 := StatementOf(c1)];
    var r := AddStatement(r1, c2);
    assert |r1.statements| == 1;
    assert r.statements == map[0 := StatementOf(c1), 1 := StatementOf(c2)];
    assert r.roles.Keys == {(c1.subj, 0), (c1.obj, 0), (c2.subj, 1), (c2.obj, 1)};
  }

  /** `a(oxaliplatin) -> a(ROS)` and `ROS => p(MAPT, pmod(Ph))`: an
      abundance change and a phosphorylation, in whichever order the graph
      yields the two edges; only the numbering of the statements depends
      on that order. */
  lemma TestAbundanceThenPhosphorylates()
    ensures var e1 := BelEdge(oxaliplatin, ros, "k", EdgeData(Some(INCREASES), None));
            var e2 := BelEdge(ros, pTau, "k", EdgeData(Some(DIRECTLY_INCREASES), None));
            var expected := {(oxaliplatin, Statement(INCREASES_ABUNDANCE, true, false)),
                             (ros, Statement(INCREASES_ABUNDANCE, true, false)),
                             (ros, Statement(PHOSPHORYLATES, true, false)),
                             (pTau, Statement(PHOSPHORYLATES, true, false))};
      && Reify([e1, e2]).entities == Reify([e2, e1]).entities == {oxaliplatin, ros, pTau}
      && Reify([e1, e2]).statements.Keys == Reify([e2, e1]).statements.Keys == {0, 1}
      && Signature(Reify([e1, e2])) == Signature(Reify([e2, e1])) == expected
  {
    var e1 := BelEdge(oxaliplatin, ros, "k", EdgeData(Some(INCREASES), None));
    var e2 := BelEdge(ros, pTau, "k", EdgeData(Some(DIRECTLY_INCREASES), None));
    var c1 := Conversion(oxaliplatin, INCREASES_ABUNDANCE, true, false, ros);
    var c2 := Conversion(ros, PHOSPHORYLATES, true, false, pTau);
    assert HasSimplePmod(pTau, "Ph");
    CausalLabel(e1);
    CausalLabel(e2);
    ReifyEitherOrder(e1, e2, c1, c2);
    assert StatementOf(c1) == Statement(INCREASES_ABUNDANCE, true, false);
    assert StatementOf(c2) == Statement(PHOSPHORYLATES, true, false);
  }

  /** Two accepted edges reify to the same entities, statement numbers and
      (entity, statement) pairs in either order. */
  lemma ReifyEitherOrder(e1: BelEdge, e2: BelEdge, c1: Conversion, c2: Conversion)
    requires ReifyEdge(e1) == Reified(c1) && ReifyEdge(e2) == Reified(c2)
    ensures Reify([e1, e2]).entities == Reify([e2, e1]).entities == {c1.subj, c1.obj, c2.subj, c2.obj}
    ensures Reify([e1, e2]).statements.Keys == Reify([e2, e1]).statements.Keys == {0, 1}
    ensures Signature(Reify([e1, e2])) == Signature(Reify([e2, e1])) ==
      {(c1.subj, StatementOf(c1)), (c1.obj, StatementOf(c1)), (c2.subj, StatementOf(c2)), (c2.obj, StatementOf(c2))}
  {
    ReifyPair(e1, e2, c1, c2);
    ReifyPair(e2, e1, c2, c1);
  }

  /** Two accepted edges in a given order. */
  lemma ReifyPair(e1: BelEdge, e2: BelEdge, c1: Conversion, c2: Conversion)
    requires ReifyEdge(e1) == Reified(c1) && ReifyEdge(e2) == Reified(c2)
    ensures Reify([e1, e2]).entities == {c1.subj, c1.obj, c2.subj, c2.obj}
    ensures Reify([e1, e2]).statements.Keys == {0, 1}
    ensures Signature(Reify([e1, e2])) ==
      {(c1.subj, StatementOf(c1)), (c1.obj, StatementOf(c1)), (c2.subj, StatementOf(c2)), (c2.obj, StatementOf(c2))}
  {
    ReifyTwo(e1, e2, c1, c2);
    TwoStatements(c1, c2);
  }

  /** A self-referencing edge yields one role edge, labelled `object`. */
  lemma SelfLoopKeepsObjectLabel(x: Entity)
    ensures Reify([BelEdge(x, x, "k", EdgeData(Some(REGULATES), None))]).roles == map[(x, 0) := REIF_OBJECT]
  {
    var e := BelEdge(x, x, "k", EdgeData(Some(REGULATES), None));
    CausalLabel(e);
    ReifyOne(e);
  }
}
