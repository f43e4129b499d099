# MDStudio PROPKA helpers in Dafny

MDStudio_propka exposes the PROPKA pKa predictor as an MDStudio (WAMP) endpoint.
The only logic the package owns is in `mdstudio_propka/propka_helpers.py`, and
this project models that logic:

- **`parse_propka_pkaoutput`** reads a PROPKA `.pka` report line by line. A line
  starting with `SUMMARY OF THIS PREDICTION` opens a block. The next line is the
  column header and is skipped. Every following line is split on whitespace into
  one row, until a line starting with `------` closes the block. The rows are then
  put in a table: no rows gives an empty table, width 5 gets the names
  `resname, resnum, chain, pKa, model-pKa`, and any other width gets those five
  plus `lig-attype`. The `pKa` and `model-pKa` columns are cast to float.
  Modelled in `pka_report.dfy` (module `PkaReport`):
  - The method `ScanSummary` is the scanning loop, with the same state as the
    Python variable `p`.
  - It is proved equal to the declarative `ExpectedRows`. That function defines a
    data line as one preceded by a marker and its header, with no marker or dash
    rule in between.
  - The function `NameColumns` builds the table.
- **`propka_options`** builds the PROPKA parameter set. It starts from the
  defaults of the request schema and applies the caller's overrides of known keys;
  unknown keys are warned about and dropped. It then forces `parameters` to the
  path of `propka.cfg`. When `titrate_only` is truthy, it is replaced by the list
  of `(chain, resnum, inscode)` triples of those comma-separated pieces that
  `parse_res_string` accepts.
  Modelled in `propka_options.dfy` (module `PropkaOptions`): one method per loop
  of the source, and `ResolveOptions` for the whole function.

`strings.dfy` models the Python string operations involved: `startswith`,
`split()` on whitespace and `split(',')`. The two splits come with lemmas that
determine them and with round-trip lemmas against the matching joins.
`wrappers.dfy` holds `Option` and `Result`.

Three details of the code shape the model:
- The output list is created once, before the loop
  (`mdstudio_propka/propka_helpers.py:90`), and never cleared. With several
  summary blocks, the rows of all blocks are therefore concatenated
  (`BlocksConcatenate`).
- Each piece of `split(',')` goes to `parse_res_string` as it is, without
  trimming (`mdstudio_propka/propka_helpers.py:66-68`).
- The rows go into a pandas `DataFrame`, which pads short rows to the longest
  one. The width is therefore the longest row's length (`Width`), and only that
  width decides the column names.

Inputs that the source reads from files or foreign code are parameters:
- The report's lines. Each line is the text `readlines` gives, newline included;
  `split()` drops the newline.
- The schema's properties, as a map from name to declared default.
- The path of `propka.cfg`.
- `parse_res_string`, as a function returning `Option<ResidueId>`. `None` stands
  for its `ValueError`.
- Python's `float()` acceptance of a token, as a predicate `isFloat`.

Log messages are returned as values rather than written: `ResolveOptions` returns
the unsupported keys and the invalid residue strings, in the order the source logs
them. Python exceptions become `Err` results:
- `KeyError`: the schema has no `titrate_only`.
- `AttributeError`: a truthy `titrate_only` that is not a string.
- `ValueError`: a column count other than 5 or 6, or a pKa token that is not a
  float.

## Model

| member | source | states |
|---|---|---|
| `Strings.Words` | mdstudio_propka/propka_helpers.py:102 | `line.split()` yields only non-empty tokens without whitespace |
| `Strings.WordsOfWord` | mdstudio_propka/propka_helpers.py:102 | a run of non-whitespace characters splits into exactly itself |
| `Strings.WordsSplitAtSpace` | mdstudio_propka/propka_helpers.py:102 | any whitespace character separates tokens: the text on either side splits independently; with `WordsOfWord` this makes the tokens the maximal non-whitespace runs |
| `Strings.WordsKeepNonSpace` | mdstudio_propka/propka_helpers.py:102 | the tokens of a line, glued together, are exactly its non-whitespace characters: splitting loses only whitespace |
| `Strings.WordsUnwords` | mdstudio_propka/propka_helpers.py:102 | tokens joined by single spaces split back into the same tokens |
| `Strings.Split` | mdstudio_propka/propka_helpers.py:66 | `split(',')` always yields at least one piece, even for an empty string |
| `Strings.SplitPiecesLackSeparator` | mdstudio_propka/propka_helpers.py:66 | no piece of `split(',')` contains a comma |
| `Strings.JoinSplit` | mdstudio_propka/propka_helpers.py:66 | joining the pieces of `split(',')` with commas gives back the filter string |
| `Strings.SplitJoin` | mdstudio_propka/propka_helpers.py:66 | comma-free pieces joined with commas split back into the same pieces |
| `PkaReport.MarkerIsNotDash` | mdstudio_propka/propka_helpers.py:94-99 | no line is both a summary marker and a dash rule, so testing the marker first does not change the state a line leads to |
| `PkaReport.LastControl` | mdstudio_propka/propka_helpers.py:94-99 | finds the last marker or dash rule before a point, the line that decides the state of `p` |
| `PkaReport.DataLineByState` | mdstudio_propka/propka_helpers.py:92-103 | a line becomes a row exactly when it is not a control line and the state `p` before it is an int `<= 0` |
| `PkaReport.DataIndicesSpec` | mdstudio_propka/propka_helpers.py:92-103 | the data lines in strictly increasing line order, each a data line, none missing |
| `PkaReport.ScanSummary` | mdstudio_propka/propka_helpers.py:90-103 | the scanning loop with state `p` returns exactly the declaratively defined rows `ExpectedRows` |
| `PkaReport.RowsAreDataLines` | mdstudio_propka/propka_helpers.py:100-103 | row k is the whitespace-split tokens of the k-th data line, so rows keep file order |
| `PkaReport.NeverRows` | mdstudio_propka/propka_helpers.py:94-103 | marker lines, dash rules and the header line right after a marker are never rows |
| `PkaReport.OutsideBlocksNeverRows` | mdstudio_propka/propka_helpers.py:92-103 | a line with no marker since the start or since the last dash rule is never a row |
| `PkaReport.NoMarkerNoRows` | mdstudio_propka/propka_helpers.py:92-103 | a report without a summary marker yields no rows |
| `PkaReport.BlocksConcatenate` | mdstudio_propka/propka_helpers.py:90-103 | a later marker restarts the header skip and keeps earlier rows: the rows of `a + b` are the rows of `a` followed by those of `b` |
| `PkaReport.BlockRows` | mdstudio_propka/propka_helpers.py:90-103 | the lines of one block, from a line starting with the marker (newline included) to the dash rule, yield the tokens of their data lines in order |
| `PkaReport.OneBlock` | mdstudio_propka/propka_helpers.py:90-103 | a report with one block (any line starting with the marker, header, data lines, dash rule, no later marker) yields exactly the tokens of its data lines, in order |
| `PkaReport.Width` | mdstudio_propka/propka_helpers.py:105 | the frame's width is the longest row's length: every row fits and some row attains it |
| `PkaReport.NameColumns` | mdstudio_propka/propka_helpers.py:105-116 | empty table stays empty; width 5 gets the five names, width 6 the six ending in `lig-attype`; any other width is an error; success exactly when the present pKa and model-pKa tokens are floats; rows are kept unchanged |
| `PkaReport.ParsePkaOutput` | mdstudio_propka/propka_helpers.py:78-118 | the whole parse is the naming of the scanned rows, and a successful table holds exactly `ExpectedRows` |
| `PkaReport.WellFormedReport` | mdstudio_propka/propka_helpers.py:78-118 | a one-block report whose data lines, with any spacing and newline, each split into 5 (or 6) tokens with numeric pKa values parses to exactly those token rows under the standard column names |
| `PropkaOptions.LastOverride` | mdstudio_propka/propka_helpers.py:53-56 | a key receives an override value exactly when some override names it |
| `PropkaOptions.LastOverrideIsLast` | mdstudio_propka/propka_helpers.py:53-56 | the value a key receives is that of an override naming the key, and no later override names it: the last override wins |
| `PropkaOptions.UnsupportedKeysSpec` | mdstudio_propka/propka_helpers.py:53-58 | a key is warned about exactly when some override names it and the schema does not know it |
| `PropkaOptions.InvalidPieces` | mdstudio_propka/propka_helpers.py:66-71 | every piece logged as invalid is a piece of the filter that fails to parse |
| `PropkaOptions.SchemaDefaults` | mdstudio_propka/propka_helpers.py:46-50 | the defaults have exactly the schema's keys, each mapped to its declared default or None |
| `PropkaOptions.MergeOverrides` | mdstudio_propka/propka_helpers.py:52-58 | the keys stay those of the schema; a key with an override gets its (last) value, every other keeps its default; unknown keys are reported in order |
| `PropkaOptions.ParseResidueFilter` | mdstudio_propka/propka_helpers.py:66-72 | the loop over the comma-separated pieces returns the residue list and the invalid pieces, one entry per piece between them |
| `PropkaOptions.FourPieces` | mdstudio_propka/propka_helpers.py:66-72 | of four pieces whose third fails to parse, the other three become triples in order and the third is reported |
| `PropkaOptions.ResidueListAppend` | mdstudio_propka/propka_helpers.py:65-72 | residue lists compose piece by piece, so the triples come in the order of the filter string |
| `PropkaOptions.ResidueListCount` | mdstudio_propka/propka_helpers.py:66-72 | each piece gives exactly one entry: identifiers plus invalid pieces equals pieces; no invalid piece when all parse |
| `PropkaOptions.EveryPieceAccounted` | mdstudio_propka/propka_helpers.py:66-72 | every failing piece is logged as invalid, and every piece that parses has its triple in the list |
| `PropkaOptions.ResidueListAllValid` | mdstudio_propka/propka_helpers.py:66-72 | when every piece parses, the list holds one triple per piece at its position |
| `PropkaOptions.ResidueFilterExample` | mdstudio_propka/propka_helpers.py:63-73 | `"E:17,E:18,bad,E:44"` gives the three good residues in order and reports `bad` |
| `PropkaOptions.ResolveOptions` | mdstudio_propka/propka_helpers.py:32-75 | result keys are the schema's plus `parameters`; `parameters` is always the cfg path; other keys hold their last override or default; a truthy `titrate_only` string becomes the parsed triples; a falsy one is left untouched; missing key or non-string value is an error |

## Left out

- `RunPropka.run_propka` (mdstudio_propka/propka_run.py): it creates a working
  directory, changes into it, writes the PDB, calls PROPKA's
  `Molecular_container`, checks for output files and reads the isoelectric points.
  This is I/O and foreign computation.
- `RunPropka.run_propkatraj`: a thin wrapper around MDAnalysis and propkatraj.
- `PropkaWampApi` (mdstudio_propka/wamp_services.py): transport. Authorisation
  always succeeds, and the status is `failed` or `completed`.
- `validate_file_object`: filesystem existence checks and reads.
- Loading the JSON schema and locating `propka.cfg` with `pkg_resources`: both
  are inputs of `ResolveOptions`.
- `parse_res_string` is foreign code. It is a parameter, and its `ValueError` is
  `None`. Any other exception it might raise is not modelled.
- The pandas `DataFrame` itself, the `astype(float)` results and `to_dict`: the
  table keeps its cells as token strings. The float cast is modelled only as the
  error it may raise, through the `isFloat` parameter, with padded cells counting
  as NaN.
- `Value` covers null, booleans, numbers, strings, lists and residue lists. JSON
  objects as option values are not modelled. Numbers are exact reals, without
  floating-point rounding.
- Log output itself: the warnings and critical messages are returned as lists of
  keys and pieces instead.
- `AttributeDict`: only the dictionary behaviour is modelled, as a `map`.
