# support.py: the logic of class Support

`support.py` is the utility class of a provenance data pipeline. Almost everything in it
delegates to a library: an HTTP session, a SPARQL client, `zipfile`, `json`, and the
`oc_ocdm` storer and reader. This project models the parts that are the file's own logic:

- **Provenance graph reconstruction.** This is the loop in `download_prov_from_ts`. It
  takes a parsed SPARQL 1.1 Query Results JSON Format document: the ordered `head.vars`
  (section 3.1 of that format) and the rows of `results.bindings` (its section 3.2.1).
  Each bound term is a `type`/`value` object with an optional `datatype` or `xml:lang`
  (its section 3.2.2). The loop
  turns each row into a tuple of RDF terms in `head.vars` order and adds it to a
  ConjunctiveGraph. A `uri` entry becomes a URIRef. A `literal` entry becomes a plain
  Literal and loses its datatype and language. An entry with any other tag adds nothing.
  A row without a declared variable raises `KeyError`.
- **The output path of `minify_json`.** Each non-overlapping `.json` found scanning the
  path left to right is removed, then `_minify.json` is appended. The result can still
  contain `.json`, since the scan does not look again at what it has kept.
- **`_hack_dates`.** It pops `xsd:gYear` and `xsd:gYearMonth` from rdflib's
  module-level `_toPythonMapping`.
- **The directory filter of `_zipdir`.** `dirs[:] = [d for d in dirs if d != "small"]`
  stops `os.walk` from descending into directories named `small`.

Files:

- `wrappers.dfy` holds `Option` and `Result`.
- `sparql_results.dfy` (module `SparqlResults`) holds the result-document data model. It
  also has the functions that specify the reconstruction and the lemmas about them.
- `support.dfy` (module `Support`) holds the operations of class Support:
  - the imperative `DownloadProvFromTs`, with its nested loops;
  - the path functions and their lemmas;
  - `_toPythonMapping` as a class whose method `HackDates` updates the map in place;
  - the `dirs` list of one `os.walk` step as a class whose method `PruneSmall` replaces it
    in place.

Behaviour of the code that the model keeps:

- The tuples go into a set, so duplicate rows give one tuple.
- An entry whose tag is neither `uri` nor `literal`, such as `bnode`, is skipped
  silently, so that row gives a shorter tuple.
- A row that lacks a declared variable makes the reconstruction return
  `Err(KeyError(var))`. The key is the one Python raises: the first unbound variable, in
  `head.vars` order, of the first row that has one.

## Model

| member | source | states |
|---|---|---|
| SparqlResults.Contribution | support.py:136-139 | no contract: reference definition of the term one entry appends; its properties are in RowTupleInVarOrder, UnrecognisedSkipped and RowTupleIgnoresAnnotations |
| SparqlResults.RowTuple | support.py:134-139 | no contract: reference definition of the tuple built from one row; its properties are in RowTupleConcat, RowTupleInVarOrder and RowTupleLength |
| SparqlResults.GraphOf | support.py:132-140 | no contract: reference definition of the graph built from all rows; its properties are in GraphMembership, GraphSize, GraphIgnoresRowOrder and DuplicateRowCollapses |
| SparqlResults.Reconstruct | support.py:132-141 | no contract: reference definition of the whole reconstruction; its properties are in ReconstructSucceedsIffComplete and ReconstructErrorNamesMissingVariable, and DownloadProvFromTs is proved equal to it |
| SparqlResults.Missing | support.py:135-136 | returns no index exactly when the row binds every declared variable; otherwise returns the first declared variable the row does not bind, and every variable before it is bound |
| SparqlResults.FirstMissing | support.py:133-136 | returns no position exactly when every row binds every variable; otherwise returns the first failing row, the rows before it all being complete, and that row's first unbound variable |
| SparqlResults.ReconstructSucceedsIffComplete | support.py:133-141 | the reconstruction returns a graph exactly when every row binds every declared variable, and that graph is the graph of all rows |
| SparqlResults.ReconstructErrorNamesMissingVariable | support.py:136 | a KeyError names a declared variable that some row leaves unbound |
| SparqlResults.GraphMembership | support.py:132-141 | a tuple is in the graph exactly when some binding row produces it, so each row adds its own tuple and nothing else is added |
| SparqlResults.GraphSize | support.py:132-141 | the graph has at most one tuple per row, and it is empty exactly when `bindings` is empty |
| SparqlResults.GraphIgnoresRowOrder | support.py:132-140 | two binding lists with the same rows, in any order and with any repetition, give the same graph |
| SparqlResults.DuplicateRowCollapses | support.py:140 | adding a row that is already present leaves the graph unchanged |
| SparqlResults.RowTupleConcat | support.py:134-139 | the tuple of `vs1 + vs2` is the tuple of `vs1` followed by the tuple of `vs2`, so terms follow the order of `head.vars` |
| SparqlResults.RowTupleInVarOrder | support.py:135-139 | when every entry is `uri` or `literal`, term k of the tuple comes from variable k of `head.vars`; a `uri` gives an IRI equal to its value, a `literal` gives a plain literal equal to its value |
| SparqlResults.RowTupleLength | support.py:135-140 | the tuple has exactly one term per `uri` or `literal` entry, so it is never longer than `head.vars`, and has the same length exactly when every entry is `uri` or `literal` |
| SparqlResults.UnrecognisedSkipped | support.py:136-139 | a variable bound to an entry with another tag (such as `bnode`) adds no term; the tuple is the one built as if the variable were not declared |
| SparqlResults.RowTupleIgnoresAnnotations | support.py:138-139 | rows that agree on every entry's tag and value give the same tuple, whatever their `datatype` and `xml:lang` say |
| SparqlResults.OneRowExample | support.py:133-141 | for `head.vars` s, p, o, g and one row (urn:a, urn:b, "hello", urn:g1), the graph is exactly the quad (urn:a, urn:b, "hello", urn:g1) |
| Support.DownloadProvFromTs | support.py:132-141 | the nested loops return exactly the reconstruction: the graph of all rows, or the KeyError for the first unbound variable |
| Support.RemoveAll | support.py:61 | removing occurrences never makes the string longer |
| Support.RemoveAllWithoutOccurrence | support.py:61 | a string without any occurrence of the pattern is left unchanged |
| Support.RemoveAllCanLeaveOccurrence | support.py:61 | a single left-to-right pass can leave an occurrence: `.js.jsonon` becomes `.json` |
| Support.MinifyPath | support.py:61-62 | the output path always ends in `_minify.json` and is at most that much longer than the input |
| Support.RemoveAfterStem | support.py:61 | a stem without `.json`, followed by `.json`, loses only that `.json`; the rest of the string is processed on its own |
| Support.MinifyPathOfJsonFile | support.py:61-62 | `stem.json`, where the stem holds no `.json`, is written to `stem_minify.json` |
| Support.MinifyPathRewritesDirectory | support.py:61-62 | `dir.json/name.json` is written to `dir/name_minify.json`, a file in a different directory |
| Support.MinifyPathRewritesOutJson | support.py:61-62 | `out.json/data.json` is written to `out/data_minify.json` |
| Support.IntendedMinifyPath | support.py:61-62 | the corrected path ends in `_minify.json`; what precedes that suffix is either the whole input or the input without a trailing `.json`, and a path with no trailing `.json` is kept whole; so no directory name changes |
| Support.IntendedMinifyPathKeepsStem | support.py:61-62 | with the corrected path, `stem.json` always goes to `stem_minify.json`, whatever the stem holds |
| Support.WithoutYearTypes | support.py:72-76 | after the hack neither `xsd:gYear` nor `xsd:gYearMonth` is a key; no key is added, and every other entry keeps its key and converter |
| Support.WithoutYearTypesIdempotent | support.py:72-76 | applying the hack twice has the same effect as applying it once |
| Support.ToPythonMapping.HackDates | support.py:72-76 | the shared mapping is updated in place to the mapping without the two year datatypes |
| Support.WithoutSmall | support.py:47 | the kept names are the input names with every `small` removed and every other name kept as many times as it occurs |
| Support.WithoutSmallConcat | support.py:47 | filtering a concatenation gives the concatenation of the filtered parts, so the original order is kept |
| Support.WithoutSmallKeeps | support.py:47 | a name is kept exactly when it occurs in the input and is not `small`; filtering again changes nothing |
| Support.WalkDirs.PruneSmall | support.py:46-47 | the `dirs` list is replaced in place by the filter applied to its old content |

## Findings

| source | as written | input that shows it | evidently intended | confidence | as-written member | corrected member |
|---|---|---|---|---|---|---|
| support.py:61-62 | `str(path).replace(".json", "")` removes each non-overlapping `.json` found scanning left to right, including ones inside directory names | `out.json/data.json` is minified into `out/data_minify.json`: a file in another directory, which may not exist | only the file's trailing `.json` is replaced, giving `out.json/data_minify.json` | medium, not executed | Support.MinifyPathRewritesDirectory | Support.IntendedMinifyPath |

`Support.MinifyPath` still models the code as written. `Support.IntendedMinifyPathKeepsStem`
is the property the corrected path has and the written one lacks.

## Left out

- `_requests_retry_session` and `handle_request` (support.py:16-43) are left out: HTTP sessions, urllib3 retries, `requests_cache` and network errors are I/O in foreign libraries.
- The SPARQL query of `download_prov_from_ts` (support.py:121-131) is left out: building the query and running it with SPARQLWrapper are network I/O. The model starts from the parsed result document.
- `ConjunctiveGraph.add` is modelled as adding the tuple to a set. rdflib treats a 3-tuple as a triple in the default graph and a 4-tuple as a quad, and it rejects other lengths. That is rdflib's behaviour, not this file's.
- rdflib's own term semantics are not modelled: URIRef validation and Literal equality rules.
- `download_and_store_prov` (support.py:143-146) is left out: it is JSON-LD serialisation by rdflib plus a file write.
- `zip_data` and the rest of `_zipdir` (support.py:45-54) are left out: the zip writing, `os.walk`, `os.path.join` and `relpath` are filesystem I/O. Only the name filter and its in-place write-back are modelled.
- In `minify_json`, `import_json` and `dump_json` (support.py:56-63, 79-81, 99-102), only the output path is modelled. The file reads and writes, `json.loads`/`json.dumps`, and the log lines are I/O or library serialisers.
- `measure_runtime` (support.py:65-69) is left out: wall-clock time and printing.
- `dump_dataset`, `upload_dataset`, `upload_and_store_dataset`, `get_graph_from_file` and `generate_provenance` (support.py:84-117) are left out: they pass their work to `oc_ocdm`, which is not part of this model.
- The commented-out `delete_prov_from_ts` (support.py:148-156) is left out: it is dead code.
- A term object without `type` makes the source raise `KeyError('type')`, and a `uri` or `literal` object without `value` makes it raise `KeyError('value')` (support.py:136-139). These errors are not modelled: the JSON results format requires both members, and `JsonTerm` always has them.
- The converters stored in `_toPythonMapping` are Python callables. The model treats them as opaque values of a type parameter.
- Support.RemoveAll: models `str.replace` only for the non-empty pattern that `minify_json` uses. Python's behaviour with an empty pattern (inserting between characters) is not modelled.
