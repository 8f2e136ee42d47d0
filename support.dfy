/**
 The logic of class Support that is its own: rebuilding the provenance graph from SPARQL
 JSON results, the output path of `minify_json`, the rdflib date-mapping hack, and the
 directory filter of `_zipdir`.
 */
module Support {
  import opened Wrappers
  import opened SparqlResults

  // ---------------------------------------------------------------------------
  // download_prov_from_ts: the loop over an already parsed result document
  // ---------------------------------------------------------------------------

  /**
   Rebuilds the graph row by row: for each binding, appends one term per "uri" or
   "literal" entry in "head.vars" order, then adds the tuple to the graph. A row that
   lacks a declared variable raises KeyError and no graph is returned.
   */
  method DownloadProvFromTs(results: QueryResults) returns (r: Result<Graph, Error>)
    ensures r == Reconstruct(results)
  {
    var vars, bindings := results.vars, results.bindings;
    var cg: Graph := {};
    var i := 0;
    while i < |bindings|
      invariant 0 <= i <= |bindings|
      invariant forall k :: 0 <= k < i ==> Covers(vars, bindings[k])
      invariant Complete(vars, bindings[..i]) && cg == GraphOf(vars, bindings[..i])
    {
      var quad := bindings[i];
      var quadToAdd: Tuple := [];
      var j := 0;
      while j < |vars|
        invariant 0 <= j <= |vars|
        invariant forall k :: 0 <= k < j ==> vars[k] in quad
        invariant Covers(vars[..j], quad) && quadToAdd == RowTuple(vars[..j], quad)
      {
        var v := vars[j];
        if v !in quad {
          FailsAt(results, i, j);
          r := Err(KeyError(v));
          return;
        }
        var entry := quad[v];
        if entry.kind == "uri" {
          quadToAdd := quadToAdd + [IRI(entry.value)];
        } else if entry.kind == "literal" {
          quadToAdd := quadToAdd + [Lit(entry.value)];
        }
        assert vars[..j + 1][..j] == vars[..j];
        j := j + 1;
      }
      assert vars[..j] == vars;
      assert bindings[..i + 1][..i] == bindings[..i];
      cg := cg + {quadToAdd};
      i := i + 1;
    }
    assert bindings[..i] == bindings;
    r := Ok(cg);
  }

  /** The first unbound variable met by the loops is the KeyError the reconstruction reports. */
  lemma FailsAt(results: QueryResults, i: nat, j: nat)
    requires i < |results.bindings| && j < |results.vars|
    requires forall k :: 0 <= k < i ==> Covers(results.vars, results.bindings[k])
    requires forall k :: 0 <= k < j ==> results.vars[k] in results.bindings[i]
    requires results.vars[j] !in results.bindings[i]
    ensures Reconstruct(results) == Err(KeyError(results.vars[j]))
  {
    var vars, bindings := results.vars, results.bindings;
    assert !Covers(vars, bindings[i]);
    var p := FirstMissing(vars, bindings).value;
    assert p.row == i;
    assert Missing(vars, bindings[i]).value == j;
  }

  // ---------------------------------------------------------------------------
  // minify_json: the output path
  // ---------------------------------------------------------------------------

  const JsonExtension := ".json"
  const MinifySuffix := "_minify.json"

  /** `pat` occurs in `s` at index `i`. */
  predicate OccursAt(s: string, pat: string, i: nat)
  {
    i + |pat| <= |s| && s[i..i + |pat|] == pat
  }

  predicate Occurs(s: string, pat: string)
  {
    exists i: nat :: i <= |s| && OccursAt(s, pat, i)
  }

  /**
   Python's `s.replace(pat, "")` for a non-empty `pat`: scanning left to right, each
   occurrence found is removed and the scan resumes after it.
   */
  function RemoveAll(s: string, pat: string): (r: string)
    requires pat != []
    ensures |r| <= |s|
    decreases |s|
  {
    if |s| < |pat| then s
    else if s[..|pat|] == pat then RemoveAll(s[|pat|..], pat)
    else [s[0]] + RemoveAll(s[1..], pat)
  }

  /** With no occurrence to remove, the string is left as it is. */
  lemma {:induction false} RemoveAllWithoutOccurrence(s: string, pat: string)
    requires pat != []
    requires !Occurs(s, pat)
    ensures RemoveAll(s, pat) == s
    decreases |s|
  {
    if |pat| <= |s| {
      assert !OccursAt(s, pat, 0);
      forall i: nat
        ensures !OccursAt(s[1..], pat, i)
      {
        if OccursAt(s[1..], pat, i) {
          assert s[1..][i..i + |pat|] == s[i + 1..i + 1 + |pat|];
          assert OccursAt(s, pat, i + 1);
        }
      }
      RemoveAllWithoutOccurrence(s[1..], pat);
    }
  }

  /**
   One left-to-right pass does not remove every occurrence: pieces on both sides of a
   removed one can form a new one.
   */
  lemma RemoveAllCanLeaveOccurrence()
    ensures RemoveAll(".js.jsonon", JsonExtension) == JsonExtension
  {
    assert ".js.jsonon"[..5][3] != JsonExtension[3];
    assert ".js.jsonon"[1..][..5][0] != JsonExtension[0];
    assert ".js.jsonon"[1..][1..][..5][0] != JsonExtension[0];
    assert ".js.jsonon"[1..][1..][1..] == ".jsonon";
    assert ".jsonon"[5..] == "on";
  }

  /**
   The path `minify_json` writes to: each non-overlapping ".json" found scanning left to
   right is removed, then "_minify.json" is appended. The stem can still contain ".json".
   */
  function MinifyPath(path: string): (r: string)
    ensures |r| <= |path| + |MinifySuffix|
    ensures |r| >= |MinifySuffix| && r[|r| - |MinifySuffix|..] == MinifySuffix
  {
    RemoveAll(path, JsonExtension) + MinifySuffix
  }

  /**
   A stem holding no ".json" passes through unchanged, and the ".json" right after it is
   removed: no occurrence can straddle the two, since "." appears in ".json" only first.
   */
  lemma {:induction false} RemoveAfterStem(stem: string, rest: string)
    requires !Occurs(stem, JsonExtension)
    ensures RemoveAll(stem + JsonExtension + rest, JsonExtension) == stem + RemoveAll(rest, JsonExtension)
    decreases |stem|
  {
    var s := stem + JsonExtension + rest;
    if stem == [] {
      assert s[..5] == JsonExtension && s[5..] == rest;
    } else {
      if |stem| >= 5 {
        assert s[..5] == stem[..5];
        assert !OccursAt(stem, JsonExtension, 0);
        assert stem[0..5] == stem[..5];
        assert s[..5] != JsonExtension;
      } else {
        assert s[..5][|stem|] == s[|stem|] == '.';
        assert s[..5][|stem|] != JsonExtension[|stem|];
        assert s[..5] != JsonExtension;
      }
      forall i: nat | i <= |stem[1..]|
        ensures !OccursAt(stem[1..], JsonExtension, i)
      {
        if OccursAt(stem[1..], JsonExtension, i) {
          assert stem[1..][i..i + 5] == stem[i + 1..i + 6];
          assert OccursAt(stem, JsonExtension, i + 1);
        }
      }
      assert s[1..] == stem[1..] + JsonExtension + rest;
      RemoveAfterStem(stem[1..], rest);
    }
  }

  /** For a file `stem.json` whose stem holds no ".json", the output is `stem_minify.json`. */
  lemma MinifyPathOfJsonFile(stem: string)
    requires !Occurs(stem, JsonExtension)
    ensures MinifyPath(stem + JsonExtension) == stem + MinifySuffix
  {
    RemoveAfterStem(stem, []);
    assert stem + JsonExtension + [] == stem + JsonExtension;
  }

  /**
   A ".json" inside a directory name is removed too: `dir.json/name.json` is minified to
   `dir/name_minify.json`, a file in another directory.
   */
  lemma MinifyPathRewritesDirectory(dir: string, name: string)
    requires !Occurs(dir, JsonExtension) && !Occurs(name, JsonExtension)
    ensures MinifyPath(dir + JsonExtension + "/" + name + JsonExtension) == dir + "/" + name + MinifySuffix
  {
    var file := "/" + name;
    forall i: nat | i <= |file|
      ensures !OccursAt(file, JsonExtension, i)
    {
      if i > 0 && OccursAt(file, JsonExtension, i) {
        assert file[i..i + 5] == name[i - 1..i + 4];
        assert OccursAt(name, JsonExtension, i - 1);
      }
    }
    MinifyPathOfJsonFile(file);
    RemoveAfterStem(dir, file + JsonExtension);
    assert dir + JsonExtension + "/" + name + JsonExtension == dir + JsonExtension + (file + JsonExtension);
  }

  /** The smallest such input: "out.json/data.json" is minified to "out/data_minify.json". */
  lemma MinifyPathRewritesOutJson()
    ensures MinifyPath("out.json/data.json") == "out/data_minify.json"
  {
    var dir, name := "out", "data";
    assert !Occurs(dir, JsonExtension) by {
      forall i: nat | i <= |dir| ensures !OccursAt(dir, JsonExtension, i) { }
    }
    assert !Occurs(name, JsonExtension) by {
      forall i: nat | i <= |name| ensures !OccursAt(name, JsonExtension, i) { }
    }
    MinifyPathRewritesDirectory(dir, name);
    assert dir + JsonExtension + "/" + name + JsonExtension == "out.json/data.json";
    assert dir + "/" + name + MinifySuffix == "out/data_minify.json";
  }

  /** The evidently intended path: only a trailing ".json" is taken off before "_minify.json". */
  function IntendedMinifyPath(path: string): (r: string)
    ensures |r| >= |MinifySuffix| && r[|r| - |MinifySuffix|..] == MinifySuffix
    ensures r[..|r| - |MinifySuffix|] <= path && |path| - |JsonExtension| <= |r| - |MinifySuffix|
    ensures r[..|r| - |MinifySuffix|] == path || r[..|r| - |MinifySuffix|] + JsonExtension == path
    ensures !(|path| >= |JsonExtension| && path[|path| - |JsonExtension|..] == JsonExtension) ==> r == path + MinifySuffix
  {
    var n := |path|;
    (if n >= |JsonExtension| && path[n - |JsonExtension|..] == JsonExtension then path[..n - |JsonExtension|] else path) + MinifySuffix
  }

  /** The intended path keeps every directory name: `stem.json` always gives `stem_minify.json`. */
  lemma IntendedMinifyPathKeepsStem(stem: string)
    ensures IntendedMinifyPath(stem + JsonExtension) == stem + MinifySuffix
  {
    var s := stem + JsonExtension;
    assert s[|s| - 5..] == JsonExtension && s[..|s| - 5] == stem;
  }

  // ---------------------------------------------------------------------------
  // _hack_dates: rdflib's module-level _toPythonMapping
  // ---------------------------------------------------------------------------

  const XsdGYear := "http://www.w3.org/2001/XMLSchema#gYear"
  const XsdGYearMonth := "http://www.w3.org/2001/XMLSchema#gYearMonth"

  /** The mapping without the two year datatypes; every other entry kept as it is. */
  function WithoutYearTypes<V>(m: map<string, V>): (r: map<string, V>)
    ensures XsdGYear !in r && XsdGYearMonth !in r
    ensures r.Keys <= m.Keys
    ensures forall k :: k in m && k != XsdGYear && k != XsdGYearMonth ==> k in r && r[k] == m[k]
  {
    m - {XsdGYear, XsdGYearMonth}
  }

  /** Removing the year datatypes a second time changes nothing. */
  lemma WithoutYearTypesIdempotent<V>(m: map<string, V>)
    ensures WithoutYearTypes(WithoutYearTypes(m)) == WithoutYearTypes(m)
  {
  }

  /**
   rdflib's `_toPythonMapping`: datatype IRI to the converter applied to literals of that
   datatype (a converter is a Python callable, here any value of type `V`).
   */
  class ToPythonMapping<V> {
    var entries: map<string, V>

    constructor (initial: map<string, V>)
      ensures entries == initial
    {
      entries := initial;
    }

    /** Pops xsd:gYear and xsd:gYearMonth when present, so such literals keep their lexical form. */
    method HackDates()
      modifies this
      ensures entries == WithoutYearTypes(old(entries))
    {
      if XsdGYear in entries {
        entries := entries - {XsdGYear};
      }
      if XsdGYearMonth in entries {
        entries := entries - {XsdGYearMonth};
      }
    }
  }

  // ---------------------------------------------------------------------------
  // _zipdir: pruning the walk
  // ---------------------------------------------------------------------------

  const SkippedDirectory := "small"

  /** `[d for d in dirs if d != "small"]`. */
  function WithoutSmall(dirs: seq<string>): (r: seq<string>)
    ensures multiset(r) == multiset(dirs)[SkippedDirectory := 0]
  {
    if dirs == [] then []
    else
      assert dirs == [dirs[0]] + dirs[1..];
      (if dirs[0] == SkippedDirectory then [] else [dirs[0]]) + WithoutSmall(dirs[1..])
  }

  /** The filter keeps the original order: filtering a concatenation concatenates the filtered parts. */
  lemma {:induction false} WithoutSmallConcat(a: seq<string>, b: seq<string>)
    ensures WithoutSmall(a + b) == WithoutSmall(a) + WithoutSmall(b)
  {
    if a == [] {
      assert a + b == b;
    } else {
      assert (a + b)[0] == a[0] && (a + b)[1..] == a[1..] + b;
      WithoutSmallConcat(a[1..], b);
    }
  }

  /** A name is kept exactly when it is not "small"; filtering again changes nothing. */
  lemma {:induction false} WithoutSmallKeeps(dirs: seq<string>)
    ensures forall d :: d in WithoutSmall(dirs) <==> d in dirs && d != SkippedDirectory
    ensures WithoutSmall(WithoutSmall(dirs)) == WithoutSmall(dirs)
  {
    if dirs != [] {
      WithoutSmallKeeps(dirs[1..]);
      var head := if dirs[0] == SkippedDirectory then [] else [dirs[0]];
      WithoutSmallConcat(head, WithoutSmall(dirs[1..]));
      assert WithoutSmall(head) == head by {
        if head != [] {
          assert head[1..] == [];
        }
      }
      forall d
        ensures d in WithoutSmall(dirs) <==> d in dirs && d != SkippedDirectory
      {
        assert d in dirs <==> d == dirs[0] || d in dirs[1..];
      }
    }
  }

  /**
   The `dirs` list that `os.walk` yields for one directory; the walk descends only into
   the names still in it after the loop body has run.
   */
  class WalkDirs {
    var dirs: seq<string>

    constructor (names: seq<string>)
      ensures dirs == names
    {
      dirs := names;
    }

    /** `dirs[:] = [d for d in dirs if d != "small"]`: the list is replaced in place. */
    method PruneSmall()
      modifies this
      ensures dirs == WithoutSmall(old(dirs))
    {
      dirs := WithoutSmall(dirs);
    }
  }
}
