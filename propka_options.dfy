/** The options resolver: the PROPKA parameter set built from the request
    schema's defaults, the caller's overrides, the path of PROPKA's own
    configuration file, and the residue filter `titrate_only` turned from a
    comma-separated string into a list of residue identifiers.

    The schema (property name to declared default), the configuration path
    and propka's `parse_res_string` are inputs: the first two are read from
    files, the last is foreign code. */
module PropkaOptions {
  import opened Wrappers
  import opened Strings

  const ParametersKey: string := "parameters"
  const TitrateOnlyKey: string := "titrate_only"
  const ResidueSeparator: char := ','

  /** What `parse_res_string` returns for one residue: chain, residue number
      and insertion code. */
  datatype ResidueId = ResidueId(chain: string, resnum: int, inscode: string)

  /** A parameter value: the JSON values a schema default or a caller can
      supply, and the residue list that `titrate_only` is normalised into. */
  datatype Value =
    | Null
    | Bool(b: bool)
    | Number(n: real)
    | Str(s: string)
    | List(items: seq<Value>)
    | Residues(ids: seq<ResidueId>)

  /** Python truthiness of a value. */
  predicate Truthy(v: Value) {
    match v
    case Null => false
    case Bool(b) => b
    case Number(n) => n != 0.0
    case Str(s) => s != ""
    case List(items) => items != []
    case Residues(ids) => ids != []
  }

  /** Why no parameter set is produced: reading `titrate_only` from a set
      without that key raises KeyError, and calling `split` on a truthy value
      that is not a string raises AttributeError. */
  datatype OptionsError =
    | MissingOption(key: string)
    | NotAString(value: Value)

  /** A schema property's default: the declared one, or None when the
      property declares none. */
  function DefaultOf(declared: Option<Value>): Value {
    declared.GetOr(Null)
  }

  /** The value of the last override for `key`, if any override names it. */
  function LastOverride(overrides: seq<(string, Value)>, key: string): (r: Option<Value>)
    ensures r.None? <==> forall i :: 0 <= i < |overrides| ==> overrides[i].0 != key
  {
    if overrides == [] then None
    else
      var last := overrides[|overrides| - 1];
      if last.0 == key then Some(last.1)
      else LastOverride(overrides[..|overrides| - 1], key)
  }

  /** The override that takes effect is the last one naming the key. */
  lemma {:induction false} LastOverrideIsLast(overrides: seq<(string, Value)>, key: string)
    requires LastOverride(overrides, key).Some?
    ensures exists i :: 0 <= i < |overrides| && overrides[i] == (key, LastOverride(overrides, key).value)
                        && forall j :: i < j < |overrides| ==> overrides[j].0 != key
    decreases |overrides|
  {
    var n := |overrides| - 1;
    if overrides[n].0 != key {
      var init := overrides[..n];
      LastOverrideIsLast(init, key);
      var i :| 0 <= i < |init| && init[i] == (key, LastOverride(init, key).value)
               && forall j :: i < j < |init| ==> init[j].0 != key;
      assert overrides[i] == init[i];
      assert forall j :: i < j < |overrides| ==> overrides[j].0 != key by {
        forall j | i < j < |overrides| ensures overrides[j].0 != key {
          if j < n { assert overrides[j] == init[j]; }
        }
      }
    }
  }

  /** The value a schema key holds once the overrides are applied. */
  function Merged(schema: map<string, Option<Value>>, overrides: seq<(string, Value)>, key: string): Value
    requires key in schema
  {
    LastOverride(overrides, key).GetOr(DefaultOf(schema[key]))
  }

  /** The keys of the overrides that the schema does not know, in the order
      they are warned about. */
  function UnsupportedKeys(overrides: seq<(string, Value)>, known: set<string>): (r: seq<string>)
    ensures |r| <= |overrides|
  {
    if overrides == [] then []
    else
      var last := overrides[|overrides| - 1];
      UnsupportedKeys(overrides[..|overrides| - 1], known) + (if last.0 in known then [] else [last.0])
  }

  /** A key is warned about exactly when some override names it and the
      schema does not know it. */
  lemma {:induction false} UnsupportedKeysSpec(overrides: seq<(string, Value)>, known: set<string>)
    ensures forall k :: k in UnsupportedKeys(overrides, known) <==>
      k !in known && exists i :: 0 <= i < |overrides| && overrides[i].0 == k
    decreases |overrides|
  {
    if overrides != [] {
      var init := overrides[..|overrides| - 1];
      UnsupportedKeysSpec(init, known);
      assert forall i :: 0 <= i < |init| ==> init[i] == overrides[i];
    }
  }

  /** The identifiers of the pieces that parse, in order. */
  function ResidueList(pieces: seq<string>, parseRes: string -> Option<ResidueId>): (r: seq<ResidueId>)
    ensures |r| <= |pieces|
  {
    if pieces == [] then []
    else
      var last := pieces[|pieces| - 1];
      ResidueList(pieces[..|pieces| - 1], parseRes)
        + (match parseRes(last) case Some(id) => [id] case None => [])
  }

  /** The pieces that do not parse, in order (each logged as invalid). */
  function InvalidPieces(pieces: seq<string>, parseRes: string -> Option<ResidueId>): (r: seq<string>)
    ensures forall p :: p in r ==> p in pieces && parseRes(p).None?
  {
    if pieces == [] then []
    else
      var init := pieces[..|pieces| - 1];
      var last := pieces[|pieces| - 1];
      assert forall p :: p in init ==> p in pieces;
      InvalidPieces(init, parseRes) + (if parseRes(last).None? then [last] else [])
  }

  /** Residue lists compose piece by piece: the identifiers of a longer
      filter are those of its first part followed by those of the rest, so
      the list keeps the order of the filter string. */
  lemma {:induction false} ResidueListAppend(p1: seq<string>, p2: seq<string>, parseRes: string -> Option<ResidueId>)
    ensures ResidueList(p1 + p2, parseRes) == ResidueList(p1, parseRes) + ResidueList(p2, parseRes)
    ensures InvalidPieces(p1 + p2, parseRes) == InvalidPieces(p1, parseRes) + InvalidPieces(p2, parseRes)
    decreases |p2|
  {
    if p2 == [] {
      assert p1 + p2 == p1;
    } else {
      var all, init, last := p1 + p2, p2[..|p2| - 1], p2[|p2| - 1];
      assert all[..|all| - 1] == p1 + init;
      assert all[|all| - 1] == last;
      ResidueListAppend(p1, init, parseRes);
      var ids := match parseRes(last) case Some(id) => [id] case None => [];
      var bad := if parseRes(last).None? then [last] else [];
      assert ResidueList(all, parseRes) == ResidueList(p1 + init, parseRes) + ids;
      assert ResidueList(p2, parseRes) == ResidueList(init, parseRes) + ids;
      assert InvalidPieces(all, parseRes) == InvalidPieces(p1 + init, parseRes) + bad;
      assert InvalidPieces(p2, parseRes) == InvalidPieces(init, parseRes) + bad;
    }
  }

  /** A piece is skipped exactly when it fails to parse: every piece yields
      either one identifier or one invalid entry. */
  lemma {:induction false} ResidueListCount(pieces: seq<string>, parseRes: string -> Option<ResidueId>)
    ensures |ResidueList(pieces, parseRes)| + |InvalidPieces(pieces, parseRes)| == |pieces|
    ensures (forall p :: p in pieces ==> parseRes(p).Some?) ==> InvalidPieces(pieces, parseRes) == []
    decreases |pieces|
  {
    if pieces != [] {
      var init := pieces[..|pieces| - 1];
      assert forall p :: p in init ==> p in pieces;
      ResidueListCount(init, parseRes);
    }
  }

  /** No piece is lost: every piece that fails to parse is logged as invalid,
      and every piece that parses has its identifier in the list. */
  lemma {:induction false} EveryPieceAccounted(pieces: seq<string>, parseRes: string -> Option<ResidueId>)
    ensures forall i :: 0 <= i < |pieces| && parseRes(pieces[i]).None? ==> pieces[i] in InvalidPieces(pieces, parseRes)
    ensures forall i :: 0 <= i < |pieces| && parseRes(pieces[i]).Some? ==> parseRes(pieces[i]).value in ResidueList(pieces, parseRes)
    decreases |pieces|
  {
    if pieces != [] {
      var init := pieces[..|pieces| - 1];
      EveryPieceAccounted(init, parseRes);
      forall i | 0 <= i < |pieces| - 1 ensures pieces[i] == init[i] { }
    }
  }

  /** When every piece parses, the list holds one identifier per piece, at
      the piece's position. */
  lemma {:induction false} ResidueListAllValid(pieces: seq<string>, parseRes: string -> Option<ResidueId>)
    requires forall k :: 0 <= k < |pieces| ==> parseRes(pieces[k]).Some?
    ensures ResidueList(pieces, parseRes) == seq(|pieces|, k requires 0 <= k < |pieces| => parseRes(pieces[k]).value)
    decreases |pieces|
  {
    if pieces != [] {
      ResidueListAllValid(pieces[..|pieces| - 1], parseRes);
    }
  }

  lemma ExampleFilterPieces()
    ensures Split("E:17,E:18,bad,E:44", ResidueSeparator) == ["E:17", "E:18", "bad", "E:44"]
  {
    var pieces := ["E:17", "E:18", "bad", "E:44"];
    assert Join(pieces, ResidueSeparator) == "E:17,E:18,bad,E:44" by {
      assert pieces[1..][1..][1..] == ["E:44"];
      assert pieces[1..][1..] == ["bad", "E:44"];
      assert pieces[1..] == ["E:18", "bad", "E:44"];
    }
    assert forall p :: p in pieces ==> ResidueSeparator !in p;
    SplitJoin(pieces, ResidueSeparator);
  }

  lemma {:induction false} FourPieces(a: string, b: string, c: string, d: string, parseRes: string -> Option<ResidueId>)
    requires parseRes(a).Some? && parseRes(b).Some? && parseRes(c).None? && parseRes(d).Some?
    ensures ResidueList([a, b, c, d], parseRes) == [parseRes(a).value, parseRes(b).value, parseRes(d).value]
    ensures InvalidPieces([a, b, c, d], parseRes) == [c]
  {
    var pieces := [a, b, c, d];
    var p1, p2, p3 := pieces[..1], pieces[..2], pieces[..3];
    assert p1[..0] == [] && p2[..1] == p1 && p3[..2] == p2;
    assert ResidueList(p1, parseRes) == [parseRes(a).value];
    assert ResidueList(p2, parseRes) == [parseRes(a).value, parseRes(b).value];
    assert ResidueList(p3, parseRes) == [parseRes(a).value, parseRes(b).value];
    assert InvalidPieces(p1, parseRes) == [];
    assert InvalidPieces(p2, parseRes) == [];
    assert InvalidPieces(p3, parseRes) == [c];
  }

  /** The filter "E:17,E:18,bad,E:44" with a malformed third piece gives the
      three other residues, in order, and reports "bad". */
  lemma ResidueFilterExample(parseRes: string -> Option<ResidueId>, e17: ResidueId, e18: ResidueId, e44: ResidueId)
    requires parseRes("E:17") == Some(e17) && parseRes("E:18") == Some(e18)
    requires parseRes("bad") == None && parseRes("E:44") == Some(e44)
    ensures ResidueList(Split("E:17,E:18,bad,E:44", ResidueSeparator), parseRes) == [e17, e18, e44]
    ensures InvalidPieces(Split("E:17,E:18,bad,E:44", ResidueSeparator), parseRes) == ["bad"]
  {
    ExampleFilterPieces();
    FourPieces("E:17", "E:18", "bad", "E:44", parseRes);
  }

  lemma OverrideStep(schema: map<string, Option<Value>>, overrides: seq<(string, Value)>, i: nat, key: string)
    requires i < |overrides| && key in schema
    ensures Merged(schema, overrides[..i + 1], key)
         == if overrides[i].0 == key then overrides[i].1 else Merged(schema, overrides[..i], key)
  {
    assert overrides[..i + 1][..i] == overrides[..i];
  }

  /** The loop over the schema's properties: every property with its default. */
  method SchemaDefaults(schema: map<string, Option<Value>>) returns (options: map<string, Value>)
    ensures options.Keys == schema.Keys
    ensures forall k :: k in schema ==> options[k] == DefaultOf(schema[k])
  {
    options := map[];
    var remaining := schema.Keys;
    while remaining != {}
      invariant remaining <= schema.Keys
      invariant options.Keys == schema.Keys - remaining
      invariant forall k :: k in options ==> options[k] == DefaultOf(schema[k])
      decreases remaining
    {
      var key :| key in remaining;
      options := options[key := DefaultOf(schema[key])];
      remaining := remaining - {key};
    }
  }

  /** The loop over the caller's overrides: a known key takes the override's
      value, an unknown one is dropped and reported. */
  method MergeOverrides(schema: map<string, Option<Value>>, defaults: map<string, Value>,
                        overrides: seq<(string, Value)>)
    returns (options: map<string, Value>, unsupported: seq<string>)
    requires defaults.Keys == schema.Keys
    requires forall k :: k in schema ==> defaults[k] == DefaultOf(schema[k])
    ensures options.Keys == schema.Keys
    ensures forall k :: k in schema ==> options[k] == Merged(schema, overrides, k)
    ensures unsupported == UnsupportedKeys(overrides, schema.Keys)
  {
    options := defaults;
    unsupported := [];
    for i := 0 to |overrides|
      invariant options.Keys == schema.Keys
      invariant forall k :: k in schema ==> options[k] == Merged(schema, overrides[..i], k)
      invariant unsupported == UnsupportedKeys(overrides[..i], schema.Keys)
    {
      assert overrides[..i + 1][..i] == overrides[..i];
      assert UnsupportedKeys(overrides[..i + 1], schema.Keys)
          == UnsupportedKeys(overrides[..i], schema.Keys) + (if overrides[i].0 in schema then [] else [overrides[i].0]);
      forall k | k in schema
        ensures Merged(schema, overrides[..i + 1], k)
             == if overrides[i].0 == k then overrides[i].1 else Merged(schema, overrides[..i], k)
      {
        OverrideStep(schema, overrides, i, k);
      }
      var (key, value) := overrides[i];
      if key in options {
        options := options[key := value];
      } else {
        unsupported := unsupported + [key];
      }
    }
    assert overrides[..|overrides|] == overrides;
  }

  /** The loop over the comma-separated pieces of `titrate_only`: the pieces
      that parse give the residue list, the others are reported. Every piece
      lands in exactly one of the two. */
  method ParseResidueFilter(pieces: seq<string>, parseRes: string -> Option<ResidueId>)
    returns (resList: seq<ResidueId>, invalid: seq<string>)
    ensures resList == ResidueList(pieces, parseRes)
    ensures invalid == InvalidPieces(pieces, parseRes)
    ensures |resList| + |invalid| == |pieces|
  {
    resList := [];
    invalid := [];
    for i := 0 to |pieces|
      invariant resList == ResidueList(pieces[..i], parseRes)
      invariant invalid == InvalidPieces(pieces[..i], parseRes)
      invariant |resList| + |invalid| == i
    {
      PieceStep(pieces, i, parseRes);
      var parsed := parseRes(pieces[i]);
      if parsed.None? {
        invalid := invalid + [pieces[i]];
        continue;
      }
      resList := resList + [parsed.value];
    }
    assert pieces[..|pieces|] == pieces;
  }

  lemma PieceStep(pieces: seq<string>, i: nat, parseRes: string -> Option<ResidueId>)
    requires i < |pieces|
    ensures ResidueList(pieces[..i + 1], parseRes)
         == ResidueList(pieces[..i], parseRes) + (match parseRes(pieces[i]) case Some(id) => [id] case None => [])
    ensures InvalidPieces(pieces[..i + 1], parseRes)
         == InvalidPieces(pieces[..i], parseRes) + (if parseRes(pieces[i]).None? then [pieces[i]] else [])
  {
    assert pieces[..i + 1][..i] == pieces[..i];
  }

  /** `propka_options`. Besides the parameter set it returns the keys warned
      about as unsupported and the residue strings logged as invalid. */
  method ResolveOptions(schema: map<string, Option<Value>>, overrides: seq<(string, Value)>,
                        cfgPath: string, parseRes: string -> Option<ResidueId>)
    returns (r: Result<map<string, Value>, OptionsError>, unsupported: seq<string>, invalid: seq<string>)
    ensures unsupported == UnsupportedKeys(overrides, schema.Keys)
    ensures TitrateOnlyKey !in schema ==> r == Err(MissingOption(TitrateOnlyKey)) && invalid == []
    ensures TitrateOnlyKey in schema ==>
      var v := Merged(schema, overrides, TitrateOnlyKey);
      if Truthy(v) && !v.Str? then r == Err(NotAString(v)) && invalid == []
      else
        && r.Ok?
        && r.value.Keys == schema.Keys + {ParametersKey}
        && r.value[ParametersKey] == Str(cfgPath)
        && (forall k :: k in schema && k != ParametersKey && k != TitrateOnlyKey ==>
              r.value[k] == Merged(schema, overrides, k))
        && (if Truthy(v) then
              var pieces := Split(v.s, ResidueSeparator);
              r.value[TitrateOnlyKey] == Residues(ResidueList(pieces, parseRes))
              && invalid == InvalidPieces(pieces, parseRes)
            else
              r.value[TitrateOnlyKey] == v && invalid == [])
  {
    var defaults := SchemaDefaults(schema);
    var merged;
    merged, unsupported := MergeOverrides(schema, defaults, overrides);
    KeysDiffer();
    var options := merged[ParametersKey := Str(cfgPath)];
    assert options.Keys == schema.Keys + {ParametersKey};
    assert forall k :: k in schema && k != ParametersKey ==> options[k] == Merged(schema, overrides, k);

    invalid := [];
    if TitrateOnlyKey !in options {
      r := Err(MissingOption(TitrateOnlyKey));
      return;
    }
    var titrate := options[TitrateOnlyKey];
    assert titrate == Merged(schema, overrides, TitrateOnlyKey);
    if Truthy(titrate) {
      if !titrate.Str? {
        r := Err(NotAString(titrate));
        return;
      }
      var resList;
      resList, invalid := ParseResidueFilter(Split(titrate.s, ResidueSeparator), parseRes);
      var normalised := options[TitrateOnlyKey := Residues(resList)];
      assert normalised.Keys == options.Keys;
      assert forall k :: k in options && k != TitrateOnlyKey ==> normalised[k] == options[k];
      r := Ok(normalised);
    } else {
      r := Ok(options);
    }
  }

  lemma KeysDiffer()
    ensures ParametersKey != TitrateOnlyKey
  {
    assert ParametersKey[0] == 'p' && TitrateOnlyKey[0] == 't';
  }
}
