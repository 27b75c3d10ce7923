/** Gene orthology: reading the HGNC orthology table into pairs of a human
    gene symbol and a mouse (MGI) or rat (RGD) identifier, adding an
    `orthologous` edge from the human gene to each ortholog already in the
    graph, and collapsing every ortholog onto its human gene. */
module Orthology {
  import opened Wrappers
  import opened Seqs
  import opened Text
  import opened BelGraph
  import Inference

  const HGNC := "HGNC"
  const MGI := "MGI"
  const RGD := "RGD"
  const ORTHOLOGOUS := "orthologous"

  /** A pair of an HGNC gene symbol and an identifier of the other
      database, with the database's `MGI:`/`RGD:` prefix removed. */
  type Orthology = (string, string)

  /** The columns of one table row that the reader keeps. */
  datatype Row = Row(symbol: string, mgis: string, rgds: string)

  /** `line.strip().split('\t')` */
  function Fields(line: string): seq<string> {
    Split(Strip(line), '\t')
  }

  /** Unpacking a row into its five columns raises `ValueError` unless
      there are exactly five; the kept columns put back together with the
      other two give the stripped line. */
  function ParseRow(line: string): (r: Result<Row, Error>)
    ensures r.Success? <==> |Fields(line)| == 5
    ensures r.Failure? ==> r.error.ValueError?
    ensures r.Success? ==> exists id, curated ::
              Join([id, r.value.symbol, curated, r.value.mgis, r.value.rgds], '\t') == Strip(line)
    ensures r.Success? ==> '\t' !in r.value.symbol && '\t' !in r.value.mgis && '\t' !in r.value.rgds
  {
    var fields := Fields(line);
    if |fields| != 5 then Failure(ValueError("too many or too few values to unpack"))
    else
      assert fields == [fields[0], fields[1], fields[2], fields[3], fields[4]];
      Success(Row(fields[1], fields[3], fields[4]))
  }

  /** One identifier from a comma-separated column: stripped, then with
      every occurrence of the prefix deleted. */
  function Entry(piece: string, prefix: string): (r: string)
    requires |prefix| > 0
    ensures forall c :: c in r ==> c in piece
  {
    Replace(Strip(piece), prefix, "")
  }

  /** The identifiers of a column, one per comma-separated piece. */
  function Entries(column: string, prefix: string): (r: seq<string>)
    requires |prefix| > 0
    ensures |r| == multiset(column)[','] + 1
    ensures forall i :: 0 <= i < |r| ==> ',' !in r[i]
  {
    var pieces := Split(column, ',');
    SplitCount(column, ',');
    seq(|pieces|, i requires 0 <= i < |pieces| => Entry(pieces[i], prefix))
  }

  /** Every identifier of a column paired with the row's symbol. */
  function Tagged(symbol: string, ids: seq<string>): (r: seq<Orthology>)
    ensures |r| == |ids|
    ensures forall i :: 0 <= i < |r| ==> r[i] == (symbol, ids[i])
  {
    seq(|ids|, i requires 0 <= i < |ids| => (symbol, ids[i]))
  }

  /** The pairs one row contributes to the MGI and to the RGD list. */
  function RowPairs(row: Row): (seq<Orthology>, seq<Orthology>) {
    (Tagged(row.symbol, Entries(row.mgis, "MGI:")), Tagged(row.symbol, Entries(row.rgds, "RGD:")))
  }

  /** What reading one line contributes to the two lists. */
  type Reader = string -> Result<(seq<Orthology>, seq<Orthology>), Error>

  /** One turn of the loop of `structure_orthologies`: the line is
      unpacked, then both columns are split; each list gets at least one
      pair. */
  function ReadLine(line: string): (r: Result<(seq<Orthology>, seq<Orthology>), Error>)
    ensures r.Failure? <==> |Fields(line)| != 5
    ensures r.Failure? ==> r.error.ValueError?
    ensures r.Success? ==> |r.value.0| >= 1 && |r.value.1| >= 1
    ensures r.Success? ==>
              && |r.value.0| == multiset(Fields(line)[3])[','] + 1
              && |r.value.1| == multiset(Fields(line)[4])[','] + 1
              && (forall p :: p in r.value.0 ==> p.0 == Fields(line)[1])
              && (forall p :: p in r.value.1 ==> p.0 == Fields(line)[1])
              && (forall p :: p in r.value.0 || p in r.value.1 ==> ',' !in p.1)
  {
    var row :- ParseRow(line);
    Success(RowPairs(row))
  }

  /** The loop of `structure_orthologies` over any line reader: lines are
      read in order, each adding its pairs to the two lists, and the first
      unreadable one ends the loop with its error. */
  function StructureWith(lines: seq<string>, read: Reader): (r: Result<(seq<Orthology>, seq<Orthology>), Error>)
  {
    if |lines| == 0 then Success(([], []))
    else
      var acc :- StructureWith(lines[..|lines| - 1], read);
      var pairs :- read(lines[|lines| - 1]);
      Success((acc.0 + pairs.0, acc.1 + pairs.1))
  }

  ghost predicate Unreadable(lines: seq<string>, read: Reader) {
    exists i :: 0 <= i < |lines| && read(lines[i]).Failure?
  }

  /** The loop fails exactly when some line is unreadable, and then with
      that line's error. */
  lemma {:induction false} StructureWithFails(lines: seq<string>, read: Reader)
    ensures StructureWith(lines, read).Failure? <==> Unreadable(lines, read)
    ensures StructureWith(lines, read).Failure? ==>
              exists i :: 0 <= i < |lines| && read(lines[i]) == Failure(StructureWith(lines, read).error)
  {
    if |lines| > 0 {
      var front := lines[..|lines| - 1];
      var k := |lines| - 1;
      StructureWithFails(front, read);
      var r := StructureWith(lines, read);
      if Unreadable(front, read) {
        var i :| 0 <= i < |front| && read(front[i]).Failure?;
        assert front[i] == lines[i];
      }
      if StructureWith(front, read).Failure? {
        var i :| 0 <= i < |front| && read(front[i]) == Failure(r.error);
        assert front[i] == lines[i];
      } else if read(lines[k]).Failure? {
        assert read(lines[k]) == Failure(r.error);
      } else {
        forall i | 0 <= i < |lines|
          ensures read(lines[i]).Success?
        {
          if i < k {
            assert front[i] == lines[i];
          }
        }
      }
    }
  }

  /** Each line read contributes at least one pair to each list when the
      reader always gives at least one. */
  lemma {:induction false} StructureWithLengths(lines: seq<string>, read: Reader)
    requires forall l :: read(l).Success? ==> |read(l).value.0| >= 1 && |read(l).value.1| >= 1
    ensures StructureWith(lines, read).Success? ==>
              |StructureWith(lines, read).value.0| >= |lines| && |StructureWith(lines, read).value.1| >= |lines|
  {
    if |lines| > 0 {
      StructureWithLengths(lines[..|lines| - 1], read);
    }
  }

  /** Reading lines in two parts is reading them whole: the lists of the
      concatenation are the concatenated lists, and reading fails exactly
      when one of the parts does. */
  lemma {:induction false} StructureWithAppend(l1: seq<string>, l2: seq<string>, read: Reader)
    ensures StructureWith(l1 + l2, read).Success? <==>
              StructureWith(l1, read).Success? && StructureWith(l2, read).Success?
    ensures StructureWith(l1, read).Success? && StructureWith(l2, read).Success? ==>
              var a := StructureWith(l1, read).value;
              var b := StructureWith(l2, read).value;
              StructureWith(l1 + l2, read) == Success((a.0 + b.0, a.1 + b.1))
    decreases |l2|
  {
    if |l2| == 0 {
      assert l1 + l2 == l1;
      var a := StructureWith(l1, read);
      if a.Success? {
        assert a.value.0 + [] == a.value.0 && a.value.1 + [] == a.value.1;
      }
    } else {
      var front := l2[..|l2| - 1];
      var last := l2[|l2| - 1];
      assert (l1 + l2)[..|l1 + l2| - 1] == l1 + front;
      assert (l1 + l2)[|l1 + l2| - 1] == last;
      StructureWithAppend(l1, front, read);
      var a := StructureWith(l1, read);
      var c := StructureWith(front, read);
      if a.Success? && c.Success? && read(last).Success? {
        var p := read(last).value;
        assert (a.value.0 + c.value.0) + p.0 == a.value.0 + (c.value.0 + p.0);
        assert (a.value.1 + c.value.1) + p.1 == a.value.1 + (c.value.1 + p.1);
      }
    }
  }

  /** The pairs a successful loop collects are exactly the pairs its
      lines give: nothing is lost and nothing is made up. */
  lemma {:induction false} StructureWithMembers(lines: seq<string>, read: Reader, p: Orthology)
    requires StructureWith(lines, read).Success?
    ensures p in StructureWith(lines, read).value.0 <==> exists i :: 0 <= i < |lines| && read(lines[i]).Success? && p in read(lines[i]).value.0
    ensures p in StructureWith(lines, read).value.1 <==> exists i :: 0 <= i < |lines| && read(lines[i]).Success? && p in read(lines[i]).value.1
  {
    if |lines| > 0 {
      var front := lines[..|lines| - 1];
      var k := |lines| - 1;
      StructureWithFails(lines, read);
      assert read(lines[k]).Success?;
      StructureWithMembers(front, read, p);
      if exists i :: 0 <= i < |front| && read(front[i]).Success? && p in read(front[i]).value.0 {
        var i :| 0 <= i < |front| && read(front[i]).Success? && p in read(front[i]).value.0;
        assert front[i] == lines[i];
      }
      if exists i :: 0 <= i < |front| && read(front[i]).Success? && p in read(front[i]).value.1 {
        var i :| 0 <= i < |front| && read(front[i]).Success? && p in read(front[i]).value.1;
        assert front[i] == lines[i];
      }
      if exists i :: 0 <= i < |lines| && read(lines[i]).Success? && p in read(lines[i]).value.0 {
        var i :| 0 <= i < |lines| && read(lines[i]).Success? && p in read(lines[i]).value.0;
        if i < k {
          assert front[i] == lines[i];
        }
      }
      if exists i :: 0 <= i < |lines| && read(lines[i]).Success? && p in read(lines[i]).value.1 {
        var i :| 0 <= i < |lines| && read(lines[i]).Success? && p in read(lines[i]).value.1;
        if i < k {
          assert front[i] == lines[i];
        }
      }
    }
  }

  /** A line that does not split into exactly five columns. */
  predicate BadLine(line: string) {
    ReadLine(line).Failure?
  }

  ghost predicate Malformed(lines: seq<string>) {
    exists i :: 0 <= i < |lines| && BadLine(lines[i])
  }

  /** `structure_orthologies(lines)`: the MGI and RGD pair lists, in line
      order. A malformed line anywhere raises `ValueError`, and every
      well-formed line gives at least one pair to each list (an empty
      column still splits into one piece). */
  function StructureOrthologies(lines: seq<string>): (r: Result<(seq<Orthology>, seq<Orthology>), Error>)
    ensures r.Failure? <==> Malformed(lines)
    ensures r.Failure? ==> r.error.ValueError?
    ensures r.Success? ==> |r.value.0| >= |lines| && |r.value.1| >= |lines|
  {
    StructureWithFails(lines, ReadLine);
    StructureWithLengths(lines, ReadLine);
    StructureWith(lines, ReadLine)
  }

  /** The table read in two parts gives the concatenated lists. */
  lemma StructureAppend(l1: seq<string>, l2: seq<string>)
    ensures StructureOrthologies(l1 + l2).Success? <==>
              StructureOrthologies(l1).Success? && StructureOrthologies(l2).Success?
    ensures StructureOrthologies(l1).Success? && StructureOrthologies(l2).Success? ==>
              var a := StructureOrthologies(l1).value;
              var b := StructureOrthologies(l2).value;
              StructureOrthologies(l1 + l2) == Success((a.0 + b.0, a.1 + b.1))
  {
    StructureWithAppend(l1, l2, ReadLine);
  }

  /** Every pair comes from one line of the table: it carries that
      line's symbol, and its identifier holds no comma. */
  lemma StructureOrigin(lines: seq<string>, p: Orthology)
    requires StructureOrthologies(lines).Success?
    requires p in StructureOrthologies(lines).value.0 || p in StructureOrthologies(lines).value.1
    ensures exists i :: 0 <= i < |lines| && |Fields(lines[i])| == 5 && p.0 == Fields(lines[i])[1]
    ensures ',' !in p.1
  {
    StructureWithMembers(lines, ReadLine, p);
    StructureWithFails(lines, ReadLine);
    var i :| 0 <= i < |lines| && (p in ReadLine(lines[i]).value.0 || p in ReadLine(lines[i]).value.1);
    assert ReadLine(lines[i]).Success?;
  }

  /** A table of one line gives exactly what reading that line gives. */
  lemma StructureLine(line: string)
    ensures StructureOrthologies([line]) == ReadLine(line)
  {
    assert [line][..0] == [];
    assert [line][0] == line;
    assert StructureWith([line][..1 - 1], ReadLine) == Success(([], []));
    var r := ReadLine(line);
    if r.Success? {
      assert [] + r.value.0 == r.value.0 && [] + r.value.1 == r.value.1;
    } else {
      assert r == Failure(r.error);
    }
  }

  /** The human gene node of a symbol. */
  function HgncNode(symbol: string): Node {
    [GENE, HGNC, symbol]
  }

  /** The gene node of an identifier in namespace `ns`. */
  function OrthologNode(ns: string, id: string): Node {
    [GENE, ns, id]
  }

  /** The data of an orthology edge. */
  function OrthologyData(): Attrs {
    Inference.RelationData(ORTHOLOGOUS)
  }

  /** What an orthology edge's data becomes once the statement is added
      again: existing data gains the relation, a new edge gets it alone. */
  function Stated(d: Option<Attrs>): Attrs {
    if d.Some? then d.value + OrthologyData() else OrthologyData()
  }

  lemma StatedTwice(d: Option<Attrs>)
    ensures Stated(Some(Stated(d))) == Stated(d)
    ensures Stated(d)[RELATION] == Str(ORTHOLOGOUS)
  {
  }

  /** One turn of `add_mgi_orthology_statements` (or its RGD twin): a pair
      whose ortholog is not in the graph is skipped; otherwise the human
      gene is added as a simple node when missing and an `orthologous`
      edge with key `code` is added from it to the ortholog. `code` is the
      key `add_unqualified_edge` gives orthology edges. */
  function AddStatement(g: Graph, p: Orthology, ns: string, code: int): (r: Graph)
    ensures WF(g) ==> WF(r)
    ensures r.attrs.Keys == g.attrs.Keys + (if OrthologNode(ns, p.1) in g.attrs then {HgncNode(p.0)} else {})
    ensures forall n :: n in g.attrs ==> r.attrs[n] == g.attrs[n]
    ensures HgncNode(p.0) in r.attrs && HgncNode(p.0) !in g.attrs ==> r.attrs[HgncNode(p.0)] == Simple(HgncNode(p.0))
    ensures OrthologNode(ns, p.1) in g.attrs ==>
              EdgeData(r, HgncNode(p.0), OrthologNode(ns, p.1), code) == Some(Stated(EdgeData(g, HgncNode(p.0), OrthologNode(ns, p.1), code)))
    ensures forall x, y, j :: OrthologNode(ns, p.1) !in g.attrs || (x, y, j) != (HgncNode(p.0), OrthologNode(ns, p.1), code) ==>
              EdgeData(r, x, y, j) == EdgeData(g, x, y, j)
  {
    var h := HgncNode(p.0);
    var o := OrthologNode(ns, p.1);
    if o !in g.attrs then g
    else
      var g1 := if h in g.attrs then g else AddNode(g, h, Simple(h));
      assert EdgeData(g1, h, o, code) == EdgeData(g, h, o, code);
      AddEdge(g1, h, o, code, OrthologyData())
  }

  /** The human genes the pairs link to an ortholog present in `g`. */
  function Humans(g: Graph, ps: seq<Orthology>, ns: string): set<Node> {
    set p | p in ps && OrthologNode(ns, p.1) in g.attrs :: HgncNode(p.0)
  }

  /** The loop of `add_mgi_orthology_statements` (`ns` = MGI) and of
      `add_rgd_orthology_statements` (`ns` = RGD) over the pairs in order.
      The only nodes it adds are the human genes of pairs whose ortholog
      is present, each as a simple HGNC gene node; no mouse or rat node is
      ever created, and existing nodes keep their data. */
  function AddStatements(g: Graph, ps: seq<Orthology>, ns: string, code: int): (r: Graph)
    requires ns != HGNC
    ensures WF(g) ==> WF(r)
    ensures r.attrs.Keys == g.attrs.Keys + Humans(g, ps, ns)
    ensures forall n :: n in g.attrs ==> r.attrs[n] == g.attrs[n]
    ensures forall n :: n in r.attrs && n !in g.attrs ==> |n| == 3 && n[1] == HGNC && r.attrs[n] == Simple(n)
  {
    if |ps| == 0 then g
    else
      var front := ps[..|ps| - 1];
      var last := ps[|ps| - 1];
      var g1 := AddStatements(g, front, ns, code);
      StatementStep(g, g1, ps, ns, code);
      AddStatement(g1, last, ns, code)
  }

  /** One more turn keeps the node facts AddStatements states. */
  lemma StatementStep(g: Graph, g1: Graph, ps: seq<Orthology>, ns: string, code: int)
    requires ns != HGNC && |ps| > 0
    requires g1.attrs.Keys == g.attrs.Keys + Humans(g, ps[..|ps| - 1], ns)
    requires forall n :: n in g.attrs ==> g1.attrs[n] == g.attrs[n]
    requires forall n :: n in g1.attrs && n !in g.attrs ==> |n| == 3 && n[1] == HGNC && g1.attrs[n] == Simple(n)
    ensures var r := AddStatement(g1, ps[|ps| - 1], ns, code);
      && r.attrs.Keys == g.attrs.Keys + Humans(g, ps, ns)
      && (forall n :: n in g.attrs ==> r.attrs[n] == g.attrs[n])
      && (forall n :: n in r.attrs && n !in g.attrs ==> |n| == 3 && n[1] == HGNC && r.attrs[n] == Simple(n))
  {
    var p := ps[|ps| - 1];
    HumansStep(g, ps, ns);
    var o := OrthologNode(ns, p.1);
    assert o in g1.attrs <==> o in g.attrs by {
      assert o[1] != HGNC;
    }
  }

  lemma HumansStep(g: Graph, ps: seq<Orthology>, ns: string)
    requires |ps| > 0
    ensures Humans(g, ps, ns) == Humans(g, ps[..|ps| - 1], ns) +
              (if OrthologNode(ns, ps[|ps| - 1].1) in g.attrs then {HgncNode(ps[|ps| - 1].0)} else {})
  {
    assert ps == ps[..|ps| - 1] + [ps[|ps| - 1]];
  }

  /** The slot `(x, y, j)` is that of the orthology edge of a pair whose
      ortholog is in `g`. */
  ghost predicate Linked(g: Graph, ps: seq<Orthology>, ns: string, code: int, x: Node, y: Node, j: int) {
    j == code && exists p :: p in ps && OrthologNode(ns, p.1) in g.attrs && x == HgncNode(p.0) && y == OrthologNode(ns, p.1)
  }

  /** Exactly the linked slots change: each carries the `orthologous`
      relation on top of whatever data it had, however many pairs link it;
      every other edge keeps its data and no edge disappears. */
  lemma {:induction false} AddStatementsEdges(g: Graph, ps: seq<Orthology>, ns: string, code: int, x: Node, y: Node, j: int)
    requires ns != HGNC
    ensures EdgeData(AddStatements(g, ps, ns, code), x, y, j) ==
              if Linked(g, ps, ns, code, x, y, j) then Some(Stated(EdgeData(g, x, y, j))) else EdgeData(g, x, y, j)
  {
    if |ps| > 0 {
      var front := ps[..|ps| - 1];
      var last := ps[|ps| - 1];
      assert ps == front + [last];
      var g1 := AddStatements(g, front, ns, code);
      AddStatementsEdges(g, front, ns, code, x, y, j);
      var o := OrthologNode(ns, last.1);
      assert o in g1.attrs <==> o in g.attrs by {
        assert o[1] != HGNC;
      }
      StatedTwice(EdgeData(g, x, y, j));
      LinkedStep(g, ps, ns, code, x, y, j);
    }
  }

  /** A slot is linked by the pairs exactly when the front links it or the
      last pair does. */
  lemma LinkedStep(g: Graph, ps: seq<Orthology>, ns: string, code: int, x: Node, y: Node, j: int)
    requires |ps| > 0
    ensures Linked(g, ps, ns, code, x, y, j) <==>
              || Linked(g, ps[..|ps| - 1], ns, code, x, y, j)
              || (OrthologNode(ns, ps[|ps| - 1].1) in g.attrs && (x, y, j) == (HgncNode(ps[|ps| - 1].0), OrthologNode(ns, ps[|ps| - 1].1), code))
  {
    var front, last := ps[..|ps| - 1], ps[|ps| - 1];
    assert ps == front + [last];
    if Linked(g, ps, ns, code, x, y, j) {
      var p :| p in ps && OrthologNode(ns, p.1) in g.attrs && x == HgncNode(p.0) && y == OrthologNode(ns, p.1);
      if p != last {
        assert p in front;
      }
    }
    if Linked(g, front, ns, code, x, y, j) {
      var p :| p in front && OrthologNode(ns, p.1) in g.attrs && x == HgncNode(p.0) && y == OrthologNode(ns, p.1);
      assert p in ps;
    }
    if OrthologNode(ns, last.1) in g.attrs && (x, y, j) == (HgncNode(last.0), OrthologNode(ns, last.1), code) {
      assert last in ps;
    }
  }

  /** `integrate_orthologies(graph, lines)`: the table is read first, so
      a malformed line leaves the graph untouched; then the MGI and the
      RGD statements are added. */
  function IntegrateOrthologies(g: Graph, lines: seq<string>, code: int): (r: Result<Graph, Error>)
    ensures r.Failure? <==> Malformed(lines)
    ensures r.Success? && WF(g) ==> WF(r.value)
    ensures r.Success? ==> forall n :: n in g.attrs ==> n in r.value.attrs && r.value.attrs[n] == g.attrs[n]
    ensures r.Success? ==> forall n :: n in r.value.attrs && n !in g.attrs ==> |n| == 3 && n[1] == HGNC && r.value.attrs[n] == Simple(n)
  {
    var pairs :- StructureOrthologies(lines);
    var g1 := AddStatements(g, pairs.0, MGI, code);
    Success(AddStatements(g1, pairs.1, RGD, code))
  }

  /** After integration every pair of the table whose ortholog is in the
      graph has its `orthologous` edge from the human gene, and no other
      edge has changed. */
  lemma IntegrateEdges(g: Graph, lines: seq<string>, code: int, x: Node, y: Node, j: int)
    requires IntegrateOrthologies(g, lines, code).Success?
    ensures var pairs := StructureOrthologies(lines).value;
            var linked := Linked(g, pairs.0, MGI, code, x, y, j) || Linked(g, pairs.1, RGD, code, x, y, j);
            EdgeData(IntegrateOrthologies(g, lines, code).value, x, y, j) ==
              if linked then Some(Stated(EdgeData(g, x, y, j))) else EdgeData(g, x, y, j)
  {
    var pairs := StructureOrthologies(lines).value;
    var g1 := AddStatements(g, pairs.0, MGI, code);
    AddStatementsEdges(g, pairs.0, MGI, code, x, y, j);
    AddStatementsEdges(g1, pairs.1, RGD, code, x, y, j);
    StatedTwice(EdgeData(g, x, y, j));
  }

  predicate IsOrthologous(e: Edge) {
    RELATION in e.data && e.data[RELATION] == Str(ORTHOLOGOUS)
  }

  /** The endpoints an edge is copied to when its ortholog end is
      replaced by the human gene `h`. */
  function Ends(e: Edge, h: Node, incoming: bool): (Node, Node) {
    if incoming then (e.u, h) else (h, e.v)
  }

  /** One step of the inner loops of `collapse_orthologies`:
      `graph.add_edge(u, hgnc, key=k, attr_dict=d)` when `k < 0`, else
      `graph.add_edge(u, hgnc, attr_dict=d)`, and the same for out-edges. */
  function CopyEdge(g: Graph, e: Edge, h: Node, incoming: bool): (r: Graph)
    ensures r.attrs.Keys == g.attrs.Keys + {Ends(e, h, incoming).0, Ends(e, h, incoming).1}
    ensures forall n :: n in g.attrs ==> r.attrs[n] == g.attrs[n]
    ensures WF(g) ==> WF(r)
    ensures Grows(g, r)
    ensures e.key < 0 ==> HasEdge(r, Ends(e, h, incoming).0, Ends(e, h, incoming).1, e.key)
    ensures e.key >= 0 ==> exists j :: j >= 0 && EdgeData(r, Ends(e, h, incoming).0, Ends(e, h, incoming).1, j) == Some(e.data)
  {
    CopyEdgeTo(g, Ends(e, h, incoming).0, Ends(e, h, incoming).1, e.key, e.data)
  }

  /** The inner loops of `collapse_orthologies`: each edge of `es`, in
      order, is copied with its ortholog end replaced by `h`. */
  function CopyEdges(g: Graph, es: seq<Edge>, h: Node, incoming: bool): (r: Graph)
    ensures WF(g) ==> WF(r)
    ensures Grows(g, r)
    ensures h in g.attrs && (forall e :: e in es ==> e.u in g.attrs && e.v in g.attrs) ==> r.attrs == g.attrs
  {
    if |es| == 0 then g
    else
      var g1 := CopyEdges(g, es[..|es| - 1], h, incoming);
      GrowsTransitive(g, g1, CopyEdge(g1, es[|es| - 1], h, incoming));
      CopyEdge(g1, es[|es| - 1], h, incoming)
  }

  /** Each copied edge lands between its new endpoints: under its own
      key when that is negative, under some fresh non-negative key with
      its data otherwise. */
  lemma {:induction false} CopyEdgesCover(g: Graph, es: seq<Edge>, h: Node, incoming: bool, e: Edge)
    requires e in es
    ensures var (u, v) := Ends(e, h, incoming);
            && (e.key < 0 ==> HasEdge(CopyEdges(g, es, h, incoming), u, v, e.key))
            && (e.key >= 0 ==> exists j :: j >= 0 && EdgeData(CopyEdges(g, es, h, incoming), u, v, j) == Some(e.data))
  {
    var front := es[..|es| - 1];
    var last := es[|es| - 1];
    var g1 := CopyEdges(g, front, h, incoming);
    var r := CopyEdges(g, es, h, incoming);
    var (u, v) := Ends(e, h, incoming);
    assert Grows(g1, r);
    if e == last {
      if e.key >= 0 {
        var j :| j >= 0 && EdgeData(r, u, v, j) == Some(e.data);
      }
    } else {
      assert e in front;
      CopyEdgesCover(g, front, h, incoming, e);
      if e.key >= 0 {
        var j :| j >= 0 && EdgeData(g1, u, v, j) == Some(e.data);
        assert HasEdge(g1, u, v, j);
      }
    }
  }

  /** The body of the outer loop of `collapse_orthologies` for the link
      `l`, `hgnc -> ortholog`: the ortholog's in-edges, then its out-edges
      as they are after that, are copied onto the human gene. */
  function CopyTurn(g: Graph, l: Edge): (r: Graph)
    ensures WF(g) ==> WF(r)
    ensures Grows(g, r)
    ensures WF(g) && l.u in g.attrs ==> r.attrs == g.attrs
  {
    var g1 := CopyEdges(g, InEdges(g, l.v), l.u, true);
    GrowsTransitive(g, g1, CopyEdges(g1, OutEdges(g1, l.v), l.u, false));
    CopyEdges(g1, OutEdges(g1, l.v), l.u, false)
  }

  /** The outer loop of `collapse_orthologies` over the orthology edges
      `links`, each `hgnc -> ortholog`: the ortholog's in-edges, then its
      out-edges, as they are at that turn, are copied onto `hgnc`. */
  function CollapseEach(g: Graph, links: seq<Edge>): (r: Graph)
    requires WF(g)
    requires forall l :: l in links ==> l in g.edges
    ensures WF(r)
    ensures Grows(g, r)
    ensures r.attrs == g.attrs
  {
    if |links| == 0 then g
    else
      var l := links[|links| - 1];
      var g0 := CollapseEach(g, links[..|links| - 1]);
      GrowsTransitive(g, g0, CopyTurn(g0, l));
      CopyTurn(g0, l)
  }

  /** At its turn, an orthology link's ortholog still has every in- and
      out-edge it had at the start, so each gets its copy on the human
      gene; later turns keep those copies. */
  lemma {:induction false} CollapseEachCovers(g: Graph, links: seq<Edge>, l: Edge, f: Edge, incoming: bool)
    requires WF(g)
    requires forall l :: l in links ==> l in g.edges
    requires l in links && f in g.edges
    requires if incoming then f.v == l.v else f.u == l.v
    ensures var (u, v) := Ends(f, l.u, incoming);
            && (f.key < 0 ==> HasEdge(CollapseEach(g, links), u, v, f.key))
            && (f.key >= 0 ==> exists j :: j >= 0 && EdgeData(CollapseEach(g, links), u, v, j) == Some(f.data))
  {
    var front := links[..|links| - 1];
    var last := links[|links| - 1];
    var g0 := CollapseEach(g, front);
    var g1 := CopyEdges(g0, InEdges(g0, last.v), last.u, true);
    var r := CollapseEach(g, links);
    var (u, v) := Ends(f, l.u, incoming);
    if l == last {
      DataOfEdge(g, f);
      assert HasEdge(g0, f.u, f.v, f.key) && HasEdge(g1, f.u, f.v, f.key);
      var m := if incoming then g0 else g1;
      var d := EdgeData(m, f.u, f.v, f.key).value;
      var f' := Edge(f.u, f.v, f.key, d);
      if f.key >= 0 {
        assert EdgeData(g0, f.u, f.v, f.key) == Some(f.data);
        GrowsTransitive(g, g0, g1);
        assert EdgeData(g1, f.u, f.v, f.key) == Some(f.data);
      }
      if incoming {
        assert f' in InEdges(g0, l.v);
        CopyEdgesCover(g0, InEdges(g0, l.v), l.u, true, f');
      } else {
        assert f' in OutEdges(g1, l.v);
        CopyEdgesCover(g1, OutEdges(g1, l.v), l.u, false, f');
      }
      if f.key >= 0 {
        var j :| j >= 0 && EdgeData(if incoming then g1 else r, u, v, j) == Some(f.data);
        assert HasEdge(g1, u, v, j) || HasEdge(r, u, v, j);
      }
    } else {
      assert l in front;
      CollapseEachCovers(g, front, l, f, incoming);
      assert Grows(g0, r);
      if f.key >= 0 {
        var j :| j >= 0 && EdgeData(g0, u, v, j) == Some(f.data);
        assert HasEdge(g0, u, v, j);
      }
    }
  }

  /** The orthologs: targets of `orthologous` edges. */
  function Orthologs(g: Graph): set<Node> {
    set e | e in g.edges && IsOrthologous(e) :: e.v
  }

  /** `collapse_orthologies(graph)`: every ortholog's edges are copied
      onto its human gene, then the orthologs are removed. The result
      keeps every other node with its data and no edge touches an
      ortholog. */
  function CollapseOrthologies(g: Graph): (r: Graph)
    requires WF(g)
    ensures WF(r)
    ensures r.attrs == g.attrs - Orthologs(g)
    ensures forall e :: e in r.edges ==> e.u !in Orthologs(g) && e.v !in Orthologs(g)
  {
    var links := Filter(g.edges, IsOrthologous);
    assert forall l :: l in links ==> l in g.edges;
    assert (set l | l in links :: l.v) == Orthologs(g);
    RemoveNodesFrom(CollapseEach(g, links), Orthologs(g))
  }

  /** Removing nodes leaves the data of every edge between the others. */
  lemma RemoveKeepsData(g: Graph, ns: set<Node>, x: Node, y: Node, j: int)
    requires WF(g) && HasEdge(g, x, y, j) && x !in ns && y !in ns
    ensures EdgeData(RemoveNodesFrom(g, ns), x, y, j) == EdgeData(g, x, y, j)
  {
    var r := RemoveNodesFrom(g, ns);
    var e := Edge(x, y, j, EdgeData(g, x, y, j).value);
    assert e in r.edges;
    DataOfEdge(r, e);
  }

  /** Edges between surviving nodes survive the collapse; those with a
      non-negative key keep their data. */
  lemma CollapseKeeps(g: Graph, x: Node, y: Node, j: int)
    requires WF(g) && HasEdge(g, x, y, j) && x !in Orthologs(g) && y !in Orthologs(g)
    ensures HasEdge(CollapseOrthologies(g), x, y, j)
    ensures j >= 0 ==> EdgeData(CollapseOrthologies(g), x, y, j) == EdgeData(g, x, y, j)
  {
    var links := Filter(g.edges, IsOrthologous);
    RemoveKeepsData(CollapseEach(g, links), Orthologs(g), x, y, j);
  }

  /** Every edge into or out of an ortholog reappears on the human gene of
      each of its orthology links, when the other end survives: an
      unqualified edge under its own key, any other edge with its data
      under some non-negative key. The orthology edge itself, being
      unqualified, becomes a self-loop on the human gene. */
  lemma CollapseMoves(g: Graph, l: Edge, f: Edge, incoming: bool)
    requires WF(g)
    requires l in g.edges && IsOrthologous(l) && f in g.edges
    requires if incoming then f.v == l.v else f.u == l.v
    requires Ends(f, l.u, incoming).0 !in Orthologs(g) && Ends(f, l.u, incoming).1 !in Orthologs(g)
    ensures var (u, v) := Ends(f, l.u, incoming);
            && (f.key < 0 ==> HasEdge(CollapseOrthologies(g), u, v, f.key))
            && (f.key >= 0 ==> exists j :: j >= 0 && EdgeData(CollapseOrthologies(g), u, v, j) == Some(f.data))
  {
    var links := Filter(g.edges, IsOrthologous);
    var m := CollapseEach(g, links);
    var (u, v) := Ends(f, l.u, incoming);
    assert (set l | l in links :: l.v) == Orthologs(g);
    var r := RemoveNodesFrom(m, Orthologs(g));
    assert CollapseOrthologies(g) == r;
    CollapseEachCovers(g, links, l, f, incoming);
    if f.key < 0 {
      RemoveKeepsData(m, Orthologs(g), u, v, f.key);
    } else {
      var j :| j >= 0 && EdgeData(m, u, v, j) == Some(f.data);
      RemoveKeepsData(m, Orthologs(g), u, v, j);
      assert EdgeData(r, u, v, j) == Some(f.data);
    }
  }

  lemma CollapseSelfLoop(g: Graph, l: Edge)
    requires WF(g) && l in g.edges && IsOrthologous(l) && l.key < 0 && l.u !in Orthologs(g)
    ensures HasEdge(CollapseOrthologies(g), l.u, l.u, l.key)
  {
    CollapseMoves(g, l, l, true);
  }

  /** Whether the data the live iteration reads for an edge marks it as an
      orthology link. */
  predicate LinkData(d: Option<Attrs>) {
    d.Some? && RELATION in d.value && d.value[RELATION] == Str(ORTHOLOGOUS)
  }

  /** `n` has a qualified in- or out-edge. */
  predicate QualifiedAt(g: Graph, n: Node) {
    exists e :: e in g.edges && (e.u == n || e.v == n) && e.key >= 0
  }

  /** One turn of the outer loop of `collapse_orthologies` as the source
      runs it under Python 3. `graph.edges_iter(relation=orthologous)` is
      a generator walking networkx's live dictionaries `adj[hgnc]` and
      `adj[hgnc][ortholog]`; when the turn has given the human gene a new
      successor, or a new key towards the ortholog, resuming the generator
      raises `RuntimeError`. The inner loops walk the ortholog's key
      dictionaries live as well; a copy lands in one of them only when the
      link is a self-loop, and then every qualified edge at the node grows
      the dictionary it is read from, so the inner loop raises too. */
  function CollapseTurn(g: Graph, l: Edge): (r: Result<Graph, Error>)
    requires WF(g) && l.u in g.attrs
    ensures r.Success? ==> WF(r.value) && Grows(g, r.value) && r.value.attrs == g.attrs
    ensures r.Failure? ==> r.error == RuntimeError(CHANGED_SIZE)
    ensures r.Success? ==> Successors(r.value, l.u) == Successors(g, l.u)
  {
    var m := CopyTurn(g, l);
    if l.u == l.v && QualifiedAt(g, l.v) then Failure(RuntimeError(CHANGED_SIZE))
    else if Successors(m, l.u) != Successors(g, l.u) || KeysBetween(m, l.u, l.v) != KeysBetween(g, l.u, l.v) then
      Failure(RuntimeError(CHANGED_SIZE))
    else Success(m)
  }

  /** The outer loop as the source runs it, over `slots`, the edges of the
      graph when the loop starts in iteration order. The generator reads an
      edge's data only when it reaches it, so an edge gets a turn only if
      it is a link at that moment; the loop stops at the first
      `RuntimeError`. The result also holds the orthologs of the turns
      taken, which `orthologs.append` collects. */
  function CollapseEachAsWritten(g: Graph, slots: seq<Edge>): (r: Result<(Graph, set<Node>), Error>)
    requires WF(g)
    ensures r.Success? ==> WF(r.value.0) && Grows(g, r.value.0) && r.value.0.attrs == g.attrs
    ensures r.Failure? ==> r.error == RuntimeError(CHANGED_SIZE)
    decreases |slots|
  {
    if |slots| == 0 then Success((g, {}))
    else
      var l := slots[0];
      if !LinkData(EdgeData(g, l.u, l.v, l.key)) then CollapseEachAsWritten(g, slots[1..])
      else
        assert Edge(l.u, l.v, l.key, EdgeData(g, l.u, l.v, l.key).value) in g.edges;
        var g1 :- CollapseTurn(g, l);
        var rest :- CollapseEachAsWritten(g1, slots[1..]);
        GrowsTransitive(g, g1, rest.0);
        Success((rest.0, rest.1 + {l.v}))
  }

  /** `collapse_orthologies(graph)` as written: the live loop over the
      graph's edges, then the removal of the orthologs it reached. */
  function CollapseOrthologiesAsWritten(g: Graph): (r: Result<Graph, Error>)
    requires WF(g)
    ensures r.Success? ==> WF(r.value)
    ensures r.Failure? ==> r.error == RuntimeError(CHANGED_SIZE)
  {
    var m :- CollapseEachAsWritten(g, g.edges);
    Success(RemoveNodesFrom(m.0, m.1))
  }

  /** A turn raises whenever the human gene has no self-loop: the
      ortholog's in-edges include the link itself, whose copy joins the
      human gene to itself, a successor it did not have. */
  lemma TurnRaises(g: Graph, l: Edge)
    requires WF(g) && l in g.edges && !HasPair(g, l.u, l.u)
    ensures CollapseTurn(g, l) == Failure(RuntimeError(CHANGED_SIZE))
  {
    var ins := InEdges(g, l.v);
    var g1 := CopyEdges(g, ins, l.u, true);
    var m := CopyTurn(g, l);
    assert l in ins;
    CopyEdgesCover(g, ins, l.u, true, l);
    var j: int :| HasEdge(g1, l.u, l.u, j);
    assert HasEdge(m, l.u, l.u, j);
    assert Edge(l.u, l.u, j, EdgeData(m, l.u, l.u, j).value) in m.edges;
    assert l.u in Successors(m, l.u);
  }

  /** Edges that are not links when reached are passed over. */
  lemma {:induction false} SkipToLink(g: Graph, slots: seq<Edge>, i: nat)
    requires WF(g) && i <= |slots|
    requires forall j :: 0 <= j < i ==> !LinkData(EdgeData(g, slots[j].u, slots[j].v, slots[j].key))
    ensures CollapseEachAsWritten(g, slots) == CollapseEachAsWritten(g, slots[i..])
  {
    if i > 0 {
      assert !LinkData(EdgeData(g, slots[0].u, slots[0].v, slots[0].key));
      SkipToLink(g, slots[1..], i - 1);
      assert slots[1..][i - 1..] == slots[i..];
    }
  }

  /** As written, `collapse_orthologies` raises `RuntimeError` on every
      graph whose first link, in iteration order, comes from a human gene
      without a self-loop, before any ortholog is removed. */
  lemma CollapseOrthologiesRaises(g: Graph, i: nat)
    requires WF(g) && i < |g.edges| && IsOrthologous(g.edges[i])
    requires !HasPair(g, g.edges[i].u, g.edges[i].u)
    requires forall j :: 0 <= j < i ==> !IsOrthologous(g.edges[j])
    ensures CollapseOrthologiesAsWritten(g) == Failure(RuntimeError(CHANGED_SIZE))
  {
    forall j | 0 <= j < i
      ensures !LinkData(EdgeData(g, g.edges[j].u, g.edges[j].v, g.edges[j].key))
    {
      DataOfEdge(g, g.edges[j]);
    }
    SkipToLink(g, g.edges, i);
    var l := g.edges[i];
    DataOfEdge(g, l);
    TurnRaises(g, l);
  }

  /** As written, `collapse_orthologies` raises `RuntimeError` on every
      graph whose first link, in iteration order, is a self-loop `h -> h`
      of a node with a qualified edge, say `x -> h`: the in-edge loop over
      `h` copies that edge into the key dictionary it is walking. */
  lemma SelfLinkRaises(g: Graph, i: nat, e: Edge)
    requires WF(g) && i < |g.edges| && IsOrthologous(g.edges[i]) && g.edges[i].u == g.edges[i].v
    requires forall j :: 0 <= j < i ==> !IsOrthologous(g.edges[j])
    requires e in g.edges && (e.u == g.edges[i].v || e.v == g.edges[i].v) && e.key >= 0
    ensures CollapseOrthologiesAsWritten(g) == Failure(RuntimeError(CHANGED_SIZE))
  {
    forall j | 0 <= j < i
      ensures !LinkData(EdgeData(g, g.edges[j].u, g.edges[j].v, g.edges[j].key))
    {
      DataOfEdge(g, g.edges[j]);
    }
    SkipToLink(g, g.edges, i);
    var l := g.edges[i];
    DataOfEdge(g, l);
    assert QualifiedAt(g, l.v);
  }
}
