/**
 The SPARQL 1.1 Query Results JSON Format as the provenance download reads it, and the
 quad set that the download rebuilds from one parsed result document.
 */
module SparqlResults {
  import opened Wrappers

  /** An RDF term as the download rebuilds it: rdflib's URIRef, or a plain Literal. */
  datatype Term = IRI(iri: string) | Lit(lexical: string)

  /**
   One RDF term of a result row (section 3.2.2 of the SPARQL 1.1 Query Results JSON Format): its "type" tag
   ("uri", "literal", "bnode", or anything an endpoint sends), its "value", and the
   optional "datatype" and "xml:lang" members of a literal.
   */
  datatype JsonTerm = JsonTerm(kind: string, value: string, datatypeIri: Option<string>, lang: Option<string>)

  /**
   One object of "results.bindings" (section 3.2.1 of the SPARQL 1.1 Query Results JSON
   Format): variable name to bound term.
   */
  type Row = map<string, JsonTerm>

  /**
   A parsed result document: "head.vars" (section 3.1 of the SPARQL 1.1 Query Results
   JSON Format) and "results.bindings".
   */
  datatype QueryResults = QueryResults(vars: seq<string>, bindings: seq<Row>)

  /**
   The error the reconstruction raises on a row without a declared variable: Python's
   KeyError from `quad[var]`. A term object always has its "type" and "value" here, so
   the KeyErrors for those two members are not part of this model.
   */
  datatype Error = KeyError(key: string)

  /** Where that error arises: the row index, and the index into "head.vars". */
  datatype Position = Position(row: nat, variable: nat)

  /** What `cg.add(tuple(quad_to_add))` receives. */
  type Tuple = seq<Term>

  /** The ConjunctiveGraph, seen as the set of tuples added to it. */
  type Graph = set<Tuple>

  /** The two tags the reconstruction turns into a term. */
  predicate Recognised(t: JsonTerm)
  {
    t.kind == "uri" || t.kind == "literal"
  }

  /** What one bound term appends to the tuple: an IRI, a plain literal, or nothing. */
  function Contribution(t: JsonTerm): seq<Term>
  {
    if t.kind == "uri" then [IRI(t.value)]
    else if t.kind == "literal" then [Lit(t.value)]
    else []
  }

  /** The row binds every declared variable. */
  predicate Covers(vars: seq<string>, row: Row)
  {
    forall v :: v in vars ==> v in row
  }

  /** Every row binds every declared variable. */
  predicate Complete(vars: seq<string>, bindings: seq<Row>)
  {
    forall i :: 0 <= i < |bindings| ==> Covers(vars, bindings[i])
  }

  /** The tuple built from one row: the contributions of the variables, in "head.vars" order. */
  function RowTuple(vars: seq<string>, row: Row): Tuple
    requires Covers(vars, row)
  {
    if vars == [] then []
    else RowTuple(vars[..|vars| - 1], row) + Contribution(row[vars[|vars| - 1]])
  }

  /** The graph built from the rows: one tuple added per row. */
  function GraphOf(vars: seq<string>, bindings: seq<Row>): Graph
    requires Complete(vars, bindings)
  {
    if bindings == [] then {}
    else GraphOf(vars, bindings[..|bindings| - 1]) + {RowTuple(vars, bindings[|bindings| - 1])}
  }

  /** The index of the first declared variable that the row does not bind, if any. */
  function Missing(vars: seq<string>, row: Row): (m: Option<nat>)
    ensures m.None? <==> Covers(vars, row)
    ensures m.Some? ==> m.value < |vars| && vars[m.value] !in row
    ensures m.Some? ==> forall j :: 0 <= j < m.value ==> vars[j] in row
  {
    if vars == [] then None
    else if vars[0] !in row then Some(0)
    else
      match Missing(vars[1..], row)
      case None => None
      case Some(k) => Some(k + 1)
  }

  /** Where the reconstruction first fails, scanning rows in order and variables in order. */
  function FirstMissing(vars: seq<string>, bindings: seq<Row>): (p: Option<Position>)
    ensures p.None? <==> Complete(vars, bindings)
    ensures p.Some? ==> p.value.row < |bindings| && Missing(vars, bindings[p.value.row]) == Some(p.value.variable)
    ensures p.Some? ==> forall i :: 0 <= i < p.value.row ==> Covers(vars, bindings[i])
  {
    if bindings == [] then None
    else
      match Missing(vars, bindings[0])
      case Some(k) => Some(Position(0, k))
      case None =>
        match FirstMissing(vars, bindings[1..])
        case None => None
        case Some(p) => Some(Position(p.row + 1, p.variable))
  }

  /**
   The whole reconstruction: the graph of all rows, or the KeyError of the first row that
   lacks a declared variable.
   */
  function Reconstruct(results: QueryResults): Result<Graph, Error>
  {
    match FirstMissing(results.vars, results.bindings)
    case Some(p) => Err(KeyError(results.vars[p.variable]))
    case None => Ok(GraphOf(results.vars, results.bindings))
  }

  /** The reconstruction succeeds exactly when every row binds every declared variable. */
  lemma ReconstructSucceedsIffComplete(results: QueryResults)
    ensures Reconstruct(results).Ok? <==> Complete(results.vars, results.bindings)
    ensures Reconstruct(results).Ok? ==> Reconstruct(results).value == GraphOf(results.vars, results.bindings)
  {
  }

  /** A reported KeyError names a declared variable that some row leaves unbound. */
  lemma ReconstructErrorNamesMissingVariable(results: QueryResults)
    requires Reconstruct(results).Err?
    ensures Reconstruct(results).error.key in results.vars
    ensures exists i :: 0 <= i < |results.bindings| && Reconstruct(results).error.key !in results.bindings[i]
  {
    var p := FirstMissing(results.vars, results.bindings).value;
    assert results.vars[p.variable] !in results.bindings[p.row];
  }

  /** A tuple is in the graph exactly when some row produces it. */
  lemma {:induction false} GraphMembership(vars: seq<string>, bindings: seq<Row>, t: Tuple)
    requires Complete(vars, bindings)
    ensures t in GraphOf(vars, bindings) <==> exists i :: 0 <= i < |bindings| && t == RowTuple(vars, bindings[i])
  {
    if bindings != [] {
      var n := |bindings| - 1;
      var prefix := bindings[..n];
      GraphMembership(vars, prefix, t);
      if t in GraphOf(vars, bindings) {
        if t in GraphOf(vars, prefix) {
          var i :| 0 <= i < |prefix| && t == RowTuple(vars, prefix[i]);
          assert prefix[i] == bindings[i];
        } else {
          assert t == RowTuple(vars, bindings[n]);
        }
      } else {
        forall i | 0 <= i < |bindings|
          ensures t != RowTuple(vars, bindings[i])
        {
          if i < n {
            assert prefix[i] == bindings[i];
          }
        }
      }
    }
  }

  /** At most one tuple per row; no rows give the empty graph, and some rows give some tuple. */
  lemma {:induction false} GraphSize(vars: seq<string>, bindings: seq<Row>)
    requires Complete(vars, bindings)
    ensures |GraphOf(vars, bindings)| <= |bindings|
    ensures GraphOf(vars, bindings) == {} <==> bindings == []
  {
    if bindings != [] {
      var n := |bindings| - 1;
      GraphSize(vars, bindings[..n]);
      assert RowTuple(vars, bindings[n]) in GraphOf(vars, bindings);
    }
  }

  /**
   The graph depends only on which rows occur: reordering the rows or repeating one does
   not change it.
   */
  lemma GraphIgnoresRowOrder(vars: seq<string>, b1: seq<Row>, b2: seq<Row>)
    requires Complete(vars, b1)
    requires forall r :: r in b1 <==> r in b2
    ensures Complete(vars, b2) && GraphOf(vars, b1) == GraphOf(vars, b2)
  {
    forall i | 0 <= i < |b2|
      ensures Covers(vars, b2[i])
    {
      assert b2[i] in b1;
    }
    forall t
      ensures t in GraphOf(vars, b1) <==> t in GraphOf(vars, b2)
    {
      GraphMembership(vars, b1, t);
      GraphMembership(vars, b2, t);
      if exists i :: 0 <= i < |b1| && t == RowTuple(vars, b1[i]) {
        var i :| 0 <= i < |b1| && t == RowTuple(vars, b1[i]);
        assert b1[i] in b2;
        var j :| 0 <= j < |b2| && b2[j] == b1[i];
      }
      if exists j :: 0 <= j < |b2| && t == RowTuple(vars, b2[j]) {
        var j :| 0 <= j < |b2| && t == RowTuple(vars, b2[j]);
        assert b2[j] in b1;
        var i :| 0 <= i < |b1| && b1[i] == b2[j];
      }
    }
  }

  /** Adding a row that is already present leaves the graph as it was. */
  lemma DuplicateRowCollapses(vars: seq<string>, bindings: seq<Row>, row: Row)
    requires Complete(vars, bindings)
    requires row in bindings
    ensures Complete(vars, bindings + [row]) && GraphOf(vars, bindings + [row]) == GraphOf(vars, bindings)
  {
    GraphIgnoresRowOrder(vars, bindings, bindings + [row]);
  }

  /** Splitting the variable list splits the tuple at the same place. */
  lemma {:induction false} RowTupleConcat(vs1: seq<string>, vs2: seq<string>, row: Row)
    requires Covers(vs1, row) && Covers(vs2, row)
    ensures RowTuple(vs1 + vs2, row) == RowTuple(vs1, row) + RowTuple(vs2, row)
  {
    if vs2 == [] {
      assert vs1 + vs2 == vs1;
    } else {
      var n := |vs2| - 1;
      RowTupleConcat(vs1, vs2[..n], row);
      assert (vs1 + vs2)[..|vs1 + vs2| - 1] == vs1 + vs2[..n];
    }
  }

  /**
   With only "uri" and "literal" entries, the tuple has one term per declared variable, in
   "head.vars" order, each carrying the entry's value unchanged.
   */
  lemma {:induction false} RowTupleInVarOrder(vars: seq<string>, row: Row)
    requires Covers(vars, row)
    requires forall k :: 0 <= k < |vars| ==> Recognised(row[vars[k]])
    ensures |RowTuple(vars, row)| == |vars|
    ensures forall k :: 0 <= k < |vars| ==>
      RowTuple(vars, row)[k] == (if row[vars[k]].kind == "uri" then IRI(row[vars[k]].value) else Lit(row[vars[k]].value))
  {
    if vars != [] {
      var n := |vars| - 1;
      var prefix := vars[..n];
      assert forall k :: 0 <= k < |prefix| ==> prefix[k] == vars[k];
      RowTupleInVarOrder(prefix, row);
    }
  }

  /** The positions in "head.vars" whose entry in the row is "uri" or "literal". */
  function RecognisedPositions(vars: seq<string>, row: Row): set<int>
    requires Covers(vars, row)
  {
    set k | 0 <= k < |vars| && Recognised(row[vars[k]])
  }

  /**
   Entries with another tag add no term: the tuple has one term per "uri" or "literal"
   entry, so it is never longer than "head.vars", and is exactly as long only when every
   entry is "uri" or "literal".
   */
  lemma {:induction false} RowTupleLength(vars: seq<string>, row: Row)
    requires Covers(vars, row)
    ensures |RowTuple(vars, row)| == |RecognisedPositions(vars, row)|
    ensures |RowTuple(vars, row)| <= |vars|
    ensures |RowTuple(vars, row)| == |vars| <==> forall k :: 0 <= k < |vars| ==> Recognised(row[vars[k]])
  {
    if vars != [] {
      var n := |vars| - 1;
      var prefix := vars[..n];
      assert forall k :: 0 <= k < |prefix| ==> prefix[k] == vars[k];
      RowTupleLength(prefix, row);
      var before := RecognisedPositions(prefix, row);
      if Recognised(row[vars[n]]) {
        assert RecognisedPositions(vars, row) == before + {n};
        assert n !in before;
      } else {
        assert RecognisedPositions(vars, row) == before;
      }
    }
  }

  /** A variable bound to a term with another tag ("bnode", say) is skipped as if undeclared. */
  lemma UnrecognisedSkipped(vs1: seq<string>, v: string, vs2: seq<string>, row: Row)
    requires Covers(vs1, row) && v in row && Covers(vs2, row)
    requires !Recognised(row[v])
    ensures Covers(vs1 + [v] + vs2, row)
    ensures RowTuple(vs1 + [v] + vs2, row) == RowTuple(vs1 + vs2, row)
  {
    var single := [v];
    assert Covers(single, row);
    assert single[..0] == [];
    assert RowTuple(single, row) == [];
    var head := vs1 + single;
    assert Covers(head, row);
    RowTupleConcat(vs1, single, row);
    assert RowTuple(head, row) == RowTuple(vs1, row);
    RowTupleConcat(head, vs2, row);
    RowTupleConcat(vs1, vs2, row);
  }

  /** The "datatype" and "xml:lang" members are dropped: rows that agree on tags and values give the same tuple. */
  lemma {:induction false} RowTupleIgnoresAnnotations(vars: seq<string>, r1: Row, r2: Row)
    requires Covers(vars, r1) && Covers(vars, r2)
    requires forall v :: v in vars ==> r1[v].kind == r2[v].kind && r1[v].value == r2[v].value
    ensures RowTuple(vars, r1) == RowTuple(vars, r2)
  {
    if vars != [] {
      RowTupleIgnoresAnnotations(vars[..|vars| - 1], r1, r2);
    }
  }

  /** One row over s, p, o, g gives exactly one quad, in that order. */
  lemma OneRowExample()
    ensures Reconstruct(QueryResults(["s", "p", "o", "g"], [map[
      "s" := JsonTerm("uri", "urn:a", None, None),
      "p" := JsonTerm("uri", "urn:b", None, None),
      "o" := JsonTerm("literal", "hello", None, None),
      "g" := JsonTerm("uri", "urn:g1", None, None)]]))
      == Ok({[IRI("urn:a"), IRI("urn:b"), Lit("hello"), IRI("urn:g1")]})
  {
    var vars := ["s", "p", "o", "g"];
    var row := map[
      "s" := JsonTerm("uri", "urn:a", None, None),
      "p" := JsonTerm("uri", "urn:b", None, None),
      "o" := JsonTerm("literal", "hello", None, None),
      "g" := JsonTerm("uri", "urn:g1", None, None)];
    assert Covers(vars, row);
    assert vars[..3] == ["s", "p", "o"] && vars[..3][..2] == ["s", "p"] && vars[..3][..2][..1] == ["s"];
    assert RowTuple(["s"], row) == [IRI("urn:a")];
    assert RowTuple(["s", "p"], row) == [IRI("urn:a"), IRI("urn:b")];
    assert RowTuple(["s", "p", "o"], row) == [IRI("urn:a"), IRI("urn:b"), Lit("hello")];
    assert RowTuple(vars, row) == [IRI("urn:a"), IRI("urn:b"), Lit("hello"), IRI("urn:g1")];
    var bindings := [row];
    assert FirstMissing(vars, bindings) == None;
    assert bindings[..0] == [];
    assert GraphOf(vars, bindings) == {RowTuple(vars, row)};
  }
}
