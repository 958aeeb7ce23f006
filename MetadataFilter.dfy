/**
 * The metadata filter: it picks the indicators whose source organisations
 * are not all Government of Canada agencies, copies a few metadata and
 * indicator-config fields of each, replaces every field value that is a
 * translation key by its translation, and writes the fields of the
 * indicators of a few goals to a text report, one block per indicator.
 *
 * The YAML files arrive already parsed: each is its path and its mapping.
 * The report is the sequence of strings the script passes to `f.write`,
 * each without its final newline (a field value may itself hold newlines).
 * `html.unescape` is a parameter.
 */
module MetadataFilter {
  import opened Wrappers
  import opened Strings
  import opened OrderedDicts

  /** A YAML value as the script meets it: null, a string, or another scalar (a number or a boolean). */
  datatype Value = Null | Str(s: string) | Scalar(text: string)

  type Content = map<string, Value>

  /** A parsed YAML file. */
  datatype YamlFile = YamlFile(path: string, content: Content)

  /** The selected fields of one indicator, in insertion order. */
  type Record = ODict<string, Value>

  /** `meta`: indicator id to record, in insertion order. */
  type Meta = ODict<string, Record>

  /** The exceptions that stop the script. */
  datatype Error =
    | SourceNotText(path: string)              // `rstrip` on a source organisation that is not a string
    | MissingConfig(inid: string)              // `indicator_config_files[inid]` with no such file
    | ValueNotText(inid: string, key: string)  // `rstrip` on a report value that is not a string

  /** `gc_orgs`: source organisations whose indicators are left out. */
  const GcOrgs: set<string> := {
    "Affaires mondiales Canada",
    "Agence de la santé publique du Canada",
    "Agriculture et Agroalimentaire Canada",
    "Conseil de la radiodiffusion et des télécommunications canadiennes",
    "Conseil des ministres de l\U{2019}Éducation (Canada)",
    "Environnement et Changement Climatique Canada (ECCC)",
    "Environnement et Changement climatique Canada",
    "Environnement et Changement climatique Canada (ECCC)",
    "Femmes et Égalité des genres Canada",
    "Immigration, Réfugiés et Citoyenneté Canada (IRCC)",
    "Institut canadien d'information sur la santé (ICIS)",
    "Patrimoine canadien",
    "Ressources naturelles Canada (RNCan)",
    "Ressources naturelles Canada et Statistique Canada",
    "Secrétariat du Conseil du Trésor",
    "Statistics Canada",
    "Statistique Canada",
    "Statistique Canada, Santé Canada",
    "Sécurité publique Canada"
  }

  /** `meta_keys`, `indicator_config_keys` and `goals`. */
  const MetaKeys: seq<string> := ["STAT_CONC_DEF", "DATA_COMP", "REC_USE_LIM"]
  const ConfigKeys: seq<string> := ["indicator_available", "page_content"]
  const Goals: seq<string> := ["2", "5", "6", "7", "8", "9", "11", "12", "14"]

  const SourcePrefix: string := "source_organisation"

  // ---------------------------------------------------------------------------
  // Indicator-config files by indicator id
  // ---------------------------------------------------------------------------

  /** `indicator_config_files`: each config file under its stem; a later file with the same stem wins. */
  function ConfigIndex(files: seq<YamlFile>): (index: map<string, Content>)
    ensures forall id :: id in index <==> exists i :: 0 <= i < |files| && Stem(files[i].path) == id
  {
    if files == [] then map[]
    else
      var init, last := files[..|files| - 1], files[|files| - 1];
      var index := ConfigIndex(init);
      assert forall i :: 0 <= i < |init| ==> init[i] == files[i];
      index[Stem(last.path) := last.content]
  }

  /** The config of an indicator is the last file with that stem. */
  lemma {:induction false} ConfigIndexLast(files: seq<YamlFile>, i: nat)
    requires i < |files|
    requires forall j :: i < j < |files| ==> Stem(files[j].path) != Stem(files[i].path)
    ensures Stem(files[i].path) in ConfigIndex(files)
    ensures ConfigIndex(files)[Stem(files[i].path)] == files[i].content
  {
    if i < |files| - 1 {
      var init := files[..|files| - 1];
      ConfigIndexLast(init, i);
    }
  }

  // ---------------------------------------------------------------------------
  // Source organisations and the selection rule
  // ---------------------------------------------------------------------------

  predicate IsSourceKey(key: string)
  {
    StartsWith(key, SourcePrefix)
  }

  /** The source organisations of a metadata file, right-stripped; `None` when one of them is not a
      string, where `rstrip` raises. */
  function Sources(content: Content): Option<set<string>>
  {
    if exists k :: k in content && IsSourceKey(k) && !content[k].Str? then None
    else Some(set k | k in content && IsSourceKey(k) && content[k].Str? :: RStrip(content[k].s))
  }

  /** The source set is the set of right-stripped values of the keys that start with `source_organisation`;
      it is empty exactly when there is no such key, and it holds only stripped names. */
  lemma SourcesSpec(content: Content)
    ensures Sources(content).None? <==> exists k :: k in content && IsSourceKey(k) && !content[k].Str?
    ensures Sources(content).Some? ==> forall o :: o in Sources(content).value <==>
      (exists k :: k in content && IsSourceKey(k) && RStrip(content[k].s) == o)
    ensures Sources(content).Some? ==>
      (Sources(content).value == {} <==> forall k :: k in content ==> !IsSourceKey(k))
    ensures Sources(content).Some? ==> forall o :: o in Sources(content).value ==> RStrip(o) == o
  {
    if Sources(content).Some? {
      SourcesEmpty(content);
      SourcesStripped(content);
    }
  }

  /** The `len(sources) == 0` branch: a readable source set is empty exactly when the file has no
      `source_organisation*` key at all. */
  lemma SourcesEmpty(content: Content)
    requires Sources(content).Some?
    ensures Sources(content).value == {} <==> forall k :: k in content ==> !IsSourceKey(k)
  {
    if k :| k in content && IsSourceKey(k) {
      assert RStrip(content[k].s) in Sources(content).value;
    }
  }

  /** Every source in the set is already right-stripped, so the `issubset` test compares stripped names. */
  lemma SourcesStripped(content: Content)
    requires Sources(content).Some?
    ensures forall o :: o in Sources(content).value ==> RStrip(o) == o
  {
    forall o | o in Sources(content).value ensures RStrip(o) == o {
      var k :| k in content && IsSourceKey(k) && content[k].Str? && RStrip(content[k].s) == o;
      RStripIdempotent(content[k].s);
    }
  }

  /** Keys that are not source keys do not change the source set, whatever their value. */
  lemma SourcesIgnoresOthers(content: Content, key: string, v: Value)
    requires !IsSourceKey(key)
    ensures Sources(content[key := v]) == Sources(content)
  {
    var c := content[key := v];
    assert forall k :: k in c && IsSourceKey(k) <==> k in content && IsSourceKey(k);
    assert forall k :: k in c && IsSourceKey(k) ==> c[k] == content[k];
    var sc := set k | k in c && IsSourceKey(k) && c[k].Str? :: RStrip(c[k].s);
    var so := set k | k in content && IsSourceKey(k) && content[k].Str? :: RStrip(content[k].s);
    assert sc == so;
  }

  /** An indicator is kept when it has no source or a source outside `gc_orgs`. */
  predicate Selected(sources: set<string>)
  {
    |sources| == 0 || !(sources <= GcOrgs)
  }

  /** The rule restated: kept exactly when there is no source or some source is not a GC organisation. */
  lemma SelectedIff(sources: set<string>)
    ensures Selected(sources) <==> sources == {} || exists o :: o in sources && o !in GcOrgs
  {
  }

  /** A source value is right-stripped and keys that are not source keys are ignored. */
  lemma SourcesExample()
    ensures Sources(map["source_organisation_1" := Str("Statistique Canada "), "title" := Null]) ==
      Some({"Statistique Canada"})
  {
    var c := map["source_organisation_1" := Str("Statistique Canada "), "title" := Null];
    assert IsSourceKey("source_organisation_1");
    assert !IsSourceKey("title");
    assert RStrip("Statistique Canada ") == "Statistique Canada";
    assert forall k :: k in c && IsSourceKey(k) <==> k == "source_organisation_1";
    assert !exists k :: k in c && IsSourceKey(k) && !c[k].Str?;
    var found := set k | k in c && IsSourceKey(k) && c[k].Str? :: RStrip(c[k].s);
    assert "Statistique Canada" in found by {
      assert "source_organisation_1" in c && c["source_organisation_1"].Str?;
    }
    assert found == {"Statistique Canada"};
  }

  /** A GC organisation alone is dropped, one other source is enough to keep an indicator, and an
      indicator without sources is kept. */
  lemma SelectionExamples()
    ensures !Selected({"Statistique Canada"})
    ensures Selected({"Statistique Canada", "OCDE"})
    ensures Selected({})
  {
    assert "OCDE" !in GcOrgs;
  }

  // ---------------------------------------------------------------------------
  // The record kept for a selected indicator
  // ---------------------------------------------------------------------------

  /** Copies into `rec`, in the order of `keys`, every key of `keys` that `content` has. */
  function Project(keys: seq<string>, content: Content, rec: Record): (r: Record)
    requires rec.Valid()
    ensures r.Valid()
  {
    if keys == [] then rec
    else
      var r := Project(keys[..|keys| - 1], content, rec);
      var k := keys[|keys| - 1];
      if k in content then r.Put(k, content[k]) else r
  }

  /** The keys of `keys` that `content` has, in order. */
  function Present(keys: seq<string>, content: Content): (r: seq<string>)
  {
    if keys == [] then []
    else Present(keys[..|keys| - 1], content) + (if keys[|keys| - 1] in content then [keys[|keys| - 1]] else [])
  }

  /** With fresh, distinct keys, projecting appends the present keys in order and copies their values. */
  lemma {:induction false} ProjectSpec(keys: seq<string>, content: Content, rec: Record)
    requires rec.Valid()
    requires forall i, j :: 0 <= i < j < |keys| ==> keys[i] != keys[j]
    requires forall i :: 0 <= i < |keys| ==> keys[i] !in rec.entries
    ensures Project(keys, content, rec).order == rec.order + Present(keys, content)
    ensures forall k :: k in Project(keys, content, rec).entries <==> k in rec.entries || (k in keys && k in content)
    ensures forall k :: k in keys && k in content ==> Project(keys, content, rec).entries[k] == content[k]
    ensures forall k :: k in rec.entries ==> Project(keys, content, rec).entries[k] == rec.entries[k]
  {
    if keys != [] {
      var init, k := keys[..|keys| - 1], keys[|keys| - 1];
      ProjectSpec(init, content, rec);
      assert k !in init;
    }
  }

  /** The record of a selected indicator: its metadata keys, then its indicator-config keys. */
  function RecordOf(content: Content, config: Content): Record
  {
    Project(ConfigKeys, config, Project(MetaKeys, content, Empty()))
  }

  /** The metadata part of a record holds the metadata keys present, with their values. */
  lemma MetaPartSpec(content: Content)
    ensures Project(MetaKeys, content, Empty()).order == Present(MetaKeys, content)
    ensures forall k :: k in Project(MetaKeys, content, Empty()).entries <==> k in MetaKeys && k in content
    ensures forall k :: k in MetaKeys && k in content ==> Project(MetaKeys, content, Empty()).entries[k] == content[k]
  {
    var e: Record := Empty();
    ProjectSpec(MetaKeys, content, e);
    assert e.order == [];
  }

  /** The config keys are projected onto the metadata part without clashing with it. */
  lemma ConfigPartSpec(content: Content, config: Content)
    ensures var m := Project(MetaKeys, content, Empty());
      && Project(ConfigKeys, config, m).order == m.order + Present(ConfigKeys, config)
      && (forall k :: k in Project(ConfigKeys, config, m).entries <==> k in m.entries || (k in ConfigKeys && k in config))
      && (forall k :: k in ConfigKeys && k in config ==> Project(ConfigKeys, config, m).entries[k] == config[k])
      && (forall k :: k in m.entries ==> Project(ConfigKeys, config, m).entries[k] == m.entries[k])
  {
    var m := Project(MetaKeys, content, Empty());
    MetaPartSpec(content);
    assert forall i :: 0 <= i < |ConfigKeys| ==> ConfigKeys[i] !in m.entries;
    ProjectSpec(ConfigKeys, config, m);
  }

  /** A record holds exactly the metadata keys present in the metadata and the config keys present in
      the config, in that order, with their original values. */
  lemma RecordOfSpec(content: Content, config: Content)
    ensures RecordOf(content, config).Valid()
    ensures RecordOf(content, config).order == Present(MetaKeys, content) + Present(ConfigKeys, config)
    ensures forall k :: k in RecordOf(content, config).entries <==>
      (k in MetaKeys && k in content) || (k in ConfigKeys && k in config)
    ensures forall k :: k in MetaKeys && k in content ==> RecordOf(content, config).entries[k] == content[k]
    ensures forall k :: k in ConfigKeys && k in config ==> RecordOf(content, config).entries[k] == config[k]
  {
    MetaPartSpec(content);
    ConfigPartSpec(content, config);
    var m := Project(MetaKeys, content, Empty());
    var r := RecordOf(content, config);
    forall k | k in MetaKeys && k in content ensures r.entries[k] == content[k] {
      assert k in m.entries;
    }
  }

  /** `meta[inid][key] = content[key]` for each key of `keys` found: the loop of either projection. */
  method ProjectKeys(keys: seq<string>, content: Content, rec: Record) returns (r: Record)
    requires rec.Valid()
    ensures r == Project(keys, content, rec)
  {
    r := rec;
    var i := 0;
    while i < |keys|
      invariant 0 <= i <= |keys|
      invariant r == Project(keys[..i], content, rec)
    {
      assert keys[..i + 1][..i] == keys[..i];
      if keys[i] in content {
        r := r.Put(keys[i], content[keys[i]]);
      }
      i := i + 1;
    }
    assert keys[..|keys|] == keys;
  }

  // ---------------------------------------------------------------------------
  // Building `meta`
  // ---------------------------------------------------------------------------

  /** A meta dict whose records are valid dicts too. */
  predicate MetaValid(meta: Meta)
  {
    meta.Valid() && forall id :: id in meta.entries ==> meta.entries[id].Valid()
  }

  /** Whether a metadata file is selected: its sources can be read and pass the rule. */
  predicate IsSelected(file: YamlFile)
  {
    Sources(file.content).Some? && Selected(Sources(file.content).value)
  }

  /** One turn of the loop over the metadata files. */
  function MetaStep(meta: Meta, file: YamlFile, configs: map<string, Content>): (r: Result<Meta, Error>)
    requires meta.Valid()
    ensures r.Ok? ==> r.value.Valid()
  {
    var inid := Stem(file.path);
    match Sources(file.content)
    case None => Err(SourceNotText(file.path))
    case Some(sources) =>
      if !Selected(sources) then Ok(meta)
      else if inid !in configs then Err(MissingConfig(inid))
      else Ok(meta.Put(inid, RecordOf(file.content, configs[inid])))
  }

  /** `meta` after the loop over `files`, or the exception that stopped it. */
  function MetaSpec(files: seq<YamlFile>, configs: map<string, Content>): (r: Result<Meta, Error>)
    ensures r.Ok? ==> r.value.Valid()
  {
    if files == [] then Ok(Empty())
    else
      match MetaSpec(files[..|files| - 1], configs)
      case Err(e) => Err(e)
      case Ok(meta) => MetaStep(meta, files[|files| - 1], configs)
  }

  /** Every record `meta` holds is a valid dict. */
  lemma {:induction false} MetaSpecValid(files: seq<YamlFile>, configs: map<string, Content>)
    ensures MetaSpec(files, configs).Ok? ==> MetaValid(MetaSpec(files, configs).value)
  {
    if files != [] {
      var init, last := files[..|files| - 1], files[|files| - 1];
      MetaSpecValid(init, configs);
      if MetaSpec(init, configs).Ok? && MetaSpec(files, configs).Ok? {
        var meta := MetaSpec(init, configs).value;
        MetaStepEntries(meta, last, configs);
        if IsSelected(last) {
          var id := Stem(last.path);
          assert RecordOf(last.content, configs[id]).Valid();
        }
      }
    }
  }

  /** A file the loop gets through: its sources are strings and, if it is selected, it has a config. */
  predicate Admissible(file: YamlFile, configs: map<string, Content>)
  {
    Sources(file.content).Some? && (Selected(Sources(file.content).value) ==> Stem(file.path) in configs)
  }

  /** One turn succeeds exactly on an admissible file; it adds the file's indicator exactly when the
      file is selected. */
  lemma MetaStepSpec(meta: Meta, file: YamlFile, configs: map<string, Content>)
    requires meta.Valid()
    ensures MetaStep(meta, file, configs).Ok? <==> Admissible(file, configs)
    ensures MetaStep(meta, file, configs).Ok? ==>
      MetaStep(meta, file, configs).value.entries.Keys ==
        meta.entries.Keys + (if IsSelected(file) then {Stem(file.path)} else {})
  {
  }

  /** Every file of `files` is admissible. */
  predicate AllAdmissible(files: seq<YamlFile>, configs: map<string, Content>)
  {
    files == [] || (AllAdmissible(files[..|files| - 1], configs) && Admissible(files[|files| - 1], configs))
  }

  lemma {:induction false} AllAdmissibleEach(files: seq<YamlFile>, configs: map<string, Content>, i: nat)
    requires AllAdmissible(files, configs) && i < |files|
    ensures Admissible(files[i], configs)
  {
    var init := files[..|files| - 1];
    if i < |init| {
      AllAdmissibleEach(init, configs, i);
      assert files[i] == init[i];
    }
  }

  lemma {:induction false} AllAdmissibleOfEach(files: seq<YamlFile>, configs: map<string, Content>)
    requires forall i :: 0 <= i < |files| ==> Admissible(files[i], configs)
    ensures AllAdmissible(files, configs)
  {
    if files != [] {
      var init := files[..|files| - 1];
      forall i | 0 <= i < |init| ensures Admissible(init[i], configs) {
        assert init[i] == files[i];
      }
      AllAdmissibleOfEach(init, configs);
    }
  }

  /** `AllAdmissible` says what its name says. */
  lemma AllAdmissibleIff(files: seq<YamlFile>, configs: map<string, Content>)
    ensures AllAdmissible(files, configs) <==> forall i :: 0 <= i < |files| ==> Admissible(files[i], configs)
  {
    if AllAdmissible(files, configs) {
      forall i | 0 <= i < |files| ensures Admissible(files[i], configs) {
        AllAdmissibleEach(files, configs, i);
      }
    } else if forall i :: 0 <= i < |files| ==> Admissible(files[i], configs) {
      AllAdmissibleOfEach(files, configs);
    }
  }

  lemma MetaSpecOkStep(files: seq<YamlFile>, configs: map<string, Content>)
    requires files != []
    requires MetaSpec(files[..|files| - 1], configs).Ok? <==> AllAdmissible(files[..|files| - 1], configs)
    ensures MetaSpec(files, configs).Ok? <==> AllAdmissible(files, configs)
  {
    var init, last := files[..|files| - 1], files[|files| - 1];
    if MetaSpec(init, configs).Ok? {
      MetaStepSpec(MetaSpec(init, configs).value, last, configs);
    }
  }

  /** The loop finishes exactly when every file is admissible. */
  lemma {:induction false} MetaSpecOk(files: seq<YamlFile>, configs: map<string, Content>)
    ensures MetaSpec(files, configs).Ok? <==> AllAdmissible(files, configs)
  {
    if files != [] {
      MetaSpecOk(files[..|files| - 1], configs);
      MetaSpecOkStep(files, configs);
    }
  }

  /** The ids of the selected files of `files`. */
  function SelectedIds(files: seq<YamlFile>): set<string>
  {
    if files == [] then {}
    else
      var last := files[|files| - 1];
      SelectedIds(files[..|files| - 1]) + (if IsSelected(last) then {Stem(last.path)} else {})
  }

  /** An id is selected exactly when some selected file has it as its stem. */
  lemma {:induction false} SelectedIdsSpec(files: seq<YamlFile>, id: string)
    ensures id in SelectedIds(files) <==>
      exists i :: 0 <= i < |files| && IsSelected(files[i]) && Stem(files[i].path) == id
  {
    if files != [] {
      var init := files[..|files| - 1];
      SelectedIdsSpec(init, id);
      assert forall i :: 0 <= i < |init| ==> init[i] == files[i];
      if id in SelectedIds(init) {
        var i :| 0 <= i < |init| && IsSelected(init[i]) && Stem(init[i].path) == id;
        assert files[i] == init[i];
      }
    }
  }

  /** `meta` holds exactly the ids of the selected files. */
  lemma {:induction false} MetaSpecKeys(files: seq<YamlFile>, configs: map<string, Content>)
    requires MetaSpec(files, configs).Ok?
    ensures MetaSpec(files, configs).value.entries.Keys == SelectedIds(files)
  {
    if files != [] {
      var init, last := files[..|files| - 1], files[|files| - 1];
      assert MetaSpec(init, configs).Ok?;
      MetaSpecKeys(init, configs);
      MetaStepSpec(MetaSpec(init, configs).value, last, configs);
    }
  }

  /** A successful turn stores the file's record under its id if it is selected, and leaves every
      other entry alone. */
  lemma MetaStepEntries(meta: Meta, file: YamlFile, configs: map<string, Content>)
    requires meta.Valid() && MetaStep(meta, file, configs).Ok?
    ensures IsSelected(file) ==> Stem(file.path) in configs
    ensures IsSelected(file) ==>
      MetaStep(meta, file, configs).value.entries ==
        meta.entries[Stem(file.path) := RecordOf(file.content, configs[Stem(file.path)])]
    ensures !IsSelected(file) ==> MetaStep(meta, file, configs).value.entries == meta.entries
  {
  }

  /** The turn of a later file keeps an entry whose id that file does not select. */
  lemma MetaSpecRecordKept(files: seq<YamlFile>, configs: map<string, Content>, id: string)
    requires files != [] && MetaSpec(files, configs).Ok?
    requires !IsSelected(files[|files| - 1]) || Stem(files[|files| - 1].path) != id
    requires MetaSpec(files[..|files| - 1], configs).Ok?
    requires id in MetaSpec(files[..|files| - 1], configs).value.entries
    ensures id in MetaSpec(files, configs).value.entries
    ensures MetaSpec(files, configs).value.entries[id] == MetaSpec(files[..|files| - 1], configs).value.entries[id]
  {
    MetaStepEntries(MetaSpec(files[..|files| - 1], configs).value, files[|files| - 1], configs);
  }

  /** The turn of the last file, when selected, puts that file's record. */
  lemma MetaSpecRecordLast(files: seq<YamlFile>, configs: map<string, Content>)
    requires files != [] && MetaSpec(files, configs).Ok? && IsSelected(files[|files| - 1])
    ensures Stem(files[|files| - 1].path) in configs
    ensures Stem(files[|files| - 1].path) in MetaSpec(files, configs).value.entries
    ensures MetaSpec(files, configs).value.entries[Stem(files[|files| - 1].path)] ==
      RecordOf(files[|files| - 1].content, configs[Stem(files[|files| - 1].path)])
  {
    MetaStepEntries(MetaSpec(files[..|files| - 1], configs).value, files[|files| - 1], configs);
  }

  /** An indicator's record comes from its last selected file and its config. */
  lemma {:induction false} MetaSpecRecord(files: seq<YamlFile>, configs: map<string, Content>, i: nat)
    requires MetaSpec(files, configs).Ok?
    requires i < |files| && IsSelected(files[i])
    requires forall j :: i < j < |files| && IsSelected(files[j]) ==> Stem(files[j].path) != Stem(files[i].path)
    ensures Stem(files[i].path) in configs
    ensures Stem(files[i].path) in MetaSpec(files, configs).value.entries
    ensures MetaSpec(files, configs).value.entries[Stem(files[i].path)] ==
      RecordOf(files[i].content, configs[Stem(files[i].path)])
  {
    var init, last := files[..|files| - 1], files[|files| - 1];
    if i < |init| {
      assert init[i] == files[i];
      forall j | i < j < |init| && IsSelected(init[j]) ensures Stem(init[j].path) != Stem(init[i].path) {
        assert init[j] == files[j];
      }
      MetaSpecRecord(init, configs, i);
      MetaSpecRecordKept(files, configs, Stem(files[i].path));
    } else {
      MetaSpecRecordLast(files, configs);
    }
  }

  /** Once the loop has raised, the rest of the files do not matter. */
  lemma {:induction false} MetaSpecErrStays(files: seq<YamlFile>, configs: map<string, Content>, n: nat)
    requires n <= |files|
    requires MetaSpec(files[..n], configs).Err?
    ensures MetaSpec(files, configs) == MetaSpec(files[..n], configs)
  {
    if n < |files| {
      var init := files[..|files| - 1];
      assert init[..n] == files[..n];
      MetaSpecErrStays(init, configs, n);
    } else {
      assert files[..n] == files;
    }
  }

  lemma MetaSpecPrefix(files: seq<YamlFile>, configs: map<string, Content>, i: nat, meta: Meta)
    requires i < |files| && MetaSpec(files[..i], configs) == Ok(meta)
    ensures MetaSpec(files[..i + 1], configs) == MetaStep(meta, files[i], configs)
  {
    assert files[..i + 1][..i] == files[..i];
  }

  /** The loop over the metadata files (with the config index built first). */
  method CollectMeta(files: seq<YamlFile>, configFiles: seq<YamlFile>) returns (r: Result<Meta, Error>)
    ensures r == MetaSpec(files, ConfigIndex(configFiles))
  {
    var configs := ConfigIndex(configFiles);
    var meta: Meta := Empty();
    var i := 0;
    while i < |files|
      invariant 0 <= i <= |files|
      invariant MetaSpec(files[..i], configs) == Ok(meta)
    {
      var file := files[i];
      MetaSpecPrefix(files, configs, i, meta);
      ghost var step := MetaStep(meta, file, configs);
      var inid := Stem(file.path);
      var sources := Sources(file.content);
      if sources.None? {
        r := Err(SourceNotText(file.path));
        assert step == r;
        MetaSpecErrStays(files, configs, i + 1);
        return;
      }
      if Selected(sources.value) {
        if inid !in configs {
          r := Err(MissingConfig(inid));
          assert step == r;
          MetaSpecErrStays(files, configs, i + 1);
          return;
        }
        var rec := ProjectKeys(MetaKeys, file.content, Empty());
        rec := ProjectKeys(ConfigKeys, configs[inid], rec);
        assert rec == RecordOf(file.content, configs[inid]);
        meta := meta.Put(inid, rec);
      }
      assert step == Ok(meta);
      i := i + 1;
    }
    assert files[..|files|] == files;
    r := Ok(meta);
  }

  // ---------------------------------------------------------------------------
  // The translation table
  // ---------------------------------------------------------------------------

  /** `filename + '.' + key`. */
  function Composite(name: string, key: string): string
  {
    name + "." + key
  }

  /** A composite key splits back into its file name and key, since a file name holds no '.'. */
  lemma CompositeSplit(name: string, key: string)
    requires '.' !in name
    ensures BeforeFirst(Composite(name, key), '.') == name
    ensures Composite(name, key)[|name| + 1..] == key
  {
    BeforeFirstOfJoin(name, '.', key);
  }

  /** Two translation files with different names never write the same composite key. */
  lemma CompositeInjective(n1: string, k1: string, n2: string, k2: string)
    requires '.' !in n1 && '.' !in n2
    requires Composite(n1, k1) == Composite(n2, k2)
    ensures n1 == n2 && k1 == k2
  {
    CompositeSplit(n1, k1);
    CompositeSplit(n2, k2);
  }

  /** The entries one translation file contributes, restricted to the keys in `done`. */
  function PartTable(name: string, content: Content, done: set<string>): map<string, Value>
    requires '.' !in name
  {
    var keys := set k | k in content && k in done :: Composite(name, k);
    map c | c in keys :: var k := c[|name| + 1..]; if k in content then content[k] else Null
  }

  /** The entries of one translation file. */
  function FileTable(file: YamlFile): map<string, Value>
  {
    PartTable(Stem(file.path), file.content, file.content.Keys)
  }

  /** `translations` after the loop over `files`: a later file overrides an earlier one. */
  function TranslationSpec(files: seq<YamlFile>): map<string, Value>
  {
    if files == [] then map[]
    else TranslationSpec(files[..|files| - 1]) + FileTable(files[|files| - 1])
  }

  lemma PartTableAt(name: string, content: Content, done: set<string>, k: string)
    requires '.' !in name && k in content && k in done
    ensures Composite(name, k) in PartTable(name, content, done)
    ensures PartTable(name, content, done)[Composite(name, k)] == content[k]
  {
    CompositeSplit(name, k);
  }

  lemma PartTableKeys(name: string, content: Content, done: set<string>, c: string)
    requires '.' !in name
    ensures c in PartTable(name, content, done) <==> exists k :: k in content && k in done && c == Composite(name, k)
  {
  }

  /** Adding one key to one file's entries is one map update. */
  lemma PartTableStep(base: map<string, Value>, name: string, content: Content, done: set<string>, k: string)
    requires '.' !in name && k in content
    ensures base + PartTable(name, content, done + {k}) ==
      (base + PartTable(name, content, done))[Composite(name, k) := content[k]]
  {
    var lhs := base + PartTable(name, content, done + {k});
    var rhs := (base + PartTable(name, content, done))[Composite(name, k) := content[k]];
    PartTableAt(name, content, done + {k}, k);
    forall c | c in lhs || c in rhs ensures c in lhs && c in rhs && lhs[c] == rhs[c] {
      PartTableKeys(name, content, done + {k}, c);
      PartTableKeys(name, content, done, c);
      if c != Composite(name, k) {
        if c in PartTable(name, content, done + {k}) {
          var k' :| k' in content && k' in done + {k} && c == Composite(name, k');
          PartTableAt(name, content, done, k');
        }
      }
    }
  }

  /** The inner loop: every key of one translation file, under its composite name. */
  method AddFileEntries(base: map<string, Value>, file: YamlFile) returns (t: map<string, Value>)
    ensures t == base + FileTable(file)
  {
    var name := Stem(file.path);
    t := base;
    var todo := file.content.Keys;
    ghost var done: set<string> := {};
    assert PartTable(name, file.content, done) == map[];
    while todo != {}
      invariant todo + done == file.content.Keys && todo !! done
      invariant t == base + PartTable(name, file.content, done)
      decreases todo
    {
      var k :| k in todo;
      PartTableStep(base, name, file.content, done, k);
      t := t[Composite(name, k) := file.content[k]];
      todo := todo - {k};
      done := done + {k};
    }
  }

  lemma TranslationSpecPrefix(files: seq<YamlFile>, i: nat)
    requires i < |files|
    ensures TranslationSpec(files[..i + 1]) == TranslationSpec(files[..i]) + FileTable(files[i])
  {
    assert files[..i + 1][..i] == files[..i];
  }

  /** The loop over the translation files. */
  method BuildTranslations(files: seq<YamlFile>) returns (t: map<string, Value>)
    ensures t == TranslationSpec(files)
  {
    t := map[];
    var i := 0;
    while i < |files|
      invariant 0 <= i <= |files|
      invariant t == TranslationSpec(files[..i])
    {
      TranslationSpecPrefix(files, i);
      t := AddFileEntries(t, files[i]);
      i := i + 1;
    }
    assert files[..|files|] == files;
  }

  /** The table's keys are the composite keys of all files. */
  lemma {:induction false} TranslationKeys(files: seq<YamlFile>, c: string)
    ensures c in TranslationSpec(files) <==>
      exists i, k :: 0 <= i < |files| && k in files[i].content && c == Composite(Stem(files[i].path), k)
  {
    if files != [] {
      var init, last := files[..|files| - 1], files[|files| - 1];
      TranslationKeys(init, c);
      PartTableKeys(Stem(last.path), last.content, last.content.Keys, c);
      assert forall i :: 0 <= i < |init| ==> init[i] == files[i];
    }
  }

  /** A key's translation is its value in the last file, of that name, that has the key. */
  lemma {:induction false} TranslationLast(files: seq<YamlFile>, i: nat, k: string)
    requires i < |files| && k in files[i].content
    requires forall j :: i < j < |files| && Stem(files[j].path) == Stem(files[i].path) ==> k !in files[j].content
    ensures Composite(Stem(files[i].path), k) in TranslationSpec(files)
    ensures TranslationSpec(files)[Composite(Stem(files[i].path), k)] == files[i].content[k]
  {
    var name := Stem(files[i].path);
    var c := Composite(name, k);
    var last := files[|files| - 1];
    if i == |files| - 1 {
      PartTableAt(name, last.content, last.content.Keys, k);
    } else {
      var init := files[..|files| - 1];
      TranslationLast(init, i, k);
      PartTableKeys(Stem(last.path), last.content, last.content.Keys, c);
      if c in FileTable(last) {
        var k' :| k' in last.content && c == Composite(Stem(last.path), k');
        CompositeInjective(name, k, Stem(last.path), k');
        assert false;
      }
    }
  }

  // ---------------------------------------------------------------------------
  // Applying the translations
  // ---------------------------------------------------------------------------

  /** A value that is a table key is replaced by its translation, once; any other value stays. */
  function Translate(v: Value, table: map<string, Value>): Value
  {
    if v.Str? && v.s in table then table[v.s] else v
  }

  function TranslateRecord(rec: Record, table: map<string, Value>): Record
  {
    ODict(rec.order, map k | k in rec.entries :: Translate(rec.entries[k], table))
  }

  /** `meta` after the translation loop. */
  function ApplySpec(meta: Meta, table: map<string, Value>): Meta
  {
    ODict(meta.order, map id | id in meta.entries :: TranslateRecord(meta.entries[id], table))
  }

  /** Translating keeps the shape of a record: the same keys in the same order. */
  lemma TranslateRecordValid(rec: Record, table: map<string, Value>)
    requires rec.Valid()
    ensures TranslateRecord(rec, table).Valid()
    ensures TranslateRecord(rec, table).order == rec.order
    ensures TranslateRecord(rec, table).entries.Keys == rec.entries.Keys
  {
  }

  /** Translating keeps the shape of `meta`: the same indicators and keys in the same order. */
  lemma ApplySpecValid(meta: Meta, table: map<string, Value>)
    requires MetaValid(meta)
    ensures MetaValid(ApplySpec(meta, table))
    ensures ApplySpec(meta, table).order == meta.order
    ensures forall id :: id in meta.entries ==>
      && ApplySpec(meta, table).entries[id].order == meta.entries[id].order
      && ApplySpec(meta, table).entries[id].entries.Keys == meta.entries[id].entries.Keys
  {
    var out := ApplySpec(meta, table);
    assert out.entries.Keys == meta.entries.Keys;
    forall id | id in meta.entries
      ensures out.entries[id].Valid()
      ensures out.entries[id].order == meta.entries[id].order
      ensures out.entries[id].entries.Keys == meta.entries[id].entries.Keys
    {
      TranslateRecordValid(meta.entries[id], table);
    }
  }

  /** Translation does not chain: a value whose translation is itself a key stops at the first step. */
  lemma TranslateNoChaining()
    ensures var table := map["goal.a" := Str("goal.b"), "goal.b" := Str("done")];
      TranslateRecord(ODict(["k"], map["k" := Str("goal.a")]), table).entries["k"] == Str("goal.b")
  {
  }

  /** When no translation is itself a table key, translating twice is translating once. */
  lemma ApplyIdempotent(meta: Meta, table: map<string, Value>)
    requires forall c :: c in table ==> !(table[c].Str? && table[c].s in table)
    ensures ApplySpec(ApplySpec(meta, table), table) == ApplySpec(meta, table)
  {
    var once := ApplySpec(meta, table);
    forall id | id in meta.entries
      ensures TranslateRecord(once.entries[id], table) == once.entries[id]
    {
      var rec := once.entries[id];
      assert (map k | k in rec.entries :: Translate(rec.entries[k], table)) == rec.entries;
    }
    assert (map id | id in once.entries :: TranslateRecord(once.entries[id], table)) == once.entries;
  }

  /** The state of the inner loop after `j` items: those items translated, the others untouched. */
  predicate ItemsTranslated(rec: Record, r: Record, table: map<string, Value>, j: nat)
  {
    && j <= |rec.order| && r.Valid() && r.order == rec.order && r.entries.Keys == rec.entries.Keys
    && (forall m :: 0 <= m < j ==> r.entries[rec.order[m]] == Translate(rec.entries[rec.order[m]], table))
    && (forall m :: j <= m < |rec.order| ==> r.entries[rec.order[m]] == rec.entries[rec.order[m]])
  }

  lemma ItemsTranslatedStep(rec: Record, r: Record, table: map<string, Value>, j: nat)
    requires rec.Valid() && ItemsTranslated(rec, r, table, j) && j < |rec.order|
    ensures var v := r.entries[rec.order[j]];
      ItemsTranslated(rec, if v.Str? && v.s in table then r.Put(rec.order[j], table[v.s]) else r, table, j + 1)
  {
    var v := r.entries[rec.order[j]];
    if v.Str? && v.s in table {
      r.PutAt(j, table[v.s]);
    }
  }

  lemma ItemsTranslatedDone(rec: Record, r: Record, table: map<string, Value>)
    requires rec.Valid() && ItemsTranslated(rec, r, table, |rec.order|)
    ensures r == TranslateRecord(rec, table)
  {
    var spec := TranslateRecord(rec, table);
    forall k | k in rec.entries ensures r.entries[k] == spec.entries[k] {
      var m :| 0 <= m < |rec.order| && rec.order[m] == k;
    }
    assert r.entries == spec.entries;
  }

  /** The inner translation loop, over one record's items. */
  method TranslateItems(rec: Record, table: map<string, Value>) returns (r: Record)
    requires rec.Valid()
    ensures r == TranslateRecord(rec, table)
  {
    r := rec;
    var j := 0;
    while j < |rec.order|
      invariant ItemsTranslated(rec, r, table, j)
    {
      ItemsTranslatedStep(rec, r, table, j);
      var key := rec.order[j];
      var value := r.entries[key];
      if value.Str? && value.s in table {
        r := r.Put(key, table[value.s]);
      }
      j := j + 1;
    }
    ItemsTranslatedDone(rec, r, table);
  }

  /** The state of the outer loop after `i` indicators: their records translated, the others untouched. */
  predicate RecordsTranslated(meta: Meta, out: Meta, table: map<string, Value>, i: nat)
  {
    && i <= |meta.order| && out.Valid() && out.order == meta.order && out.entries.Keys == meta.entries.Keys
    && (forall m :: 0 <= m < i ==> out.entries[meta.order[m]] == TranslateRecord(meta.entries[meta.order[m]], table))
    && (forall m :: i <= m < |meta.order| ==> out.entries[meta.order[m]] == meta.entries[meta.order[m]])
  }

  lemma RecordsTranslatedStep(meta: Meta, out: Meta, table: map<string, Value>, i: nat)
    requires meta.Valid() && RecordsTranslated(meta, out, table, i) && i < |meta.order|
    ensures out.entries[meta.order[i]] == meta.entries[meta.order[i]]
    ensures var inid := meta.order[i];
      RecordsTranslated(meta, out.Put(inid, TranslateRecord(meta.entries[inid], table)), table, i + 1)
  {
    out.PutAt(i, TranslateRecord(meta.entries[meta.order[i]], table));
  }

  lemma RecordsTranslatedDone(meta: Meta, out: Meta, table: map<string, Value>)
    requires meta.Valid() && RecordsTranslated(meta, out, table, |meta.order|)
    ensures out == ApplySpec(meta, table)
  {
    var spec := ApplySpec(meta, table);
    forall id | id in meta.entries ensures out.entries[id] == spec.entries[id] {
      var m :| 0 <= m < |meta.order| && meta.order[m] == id;
    }
    assert out.entries == spec.entries;
  }

  /** The translation loop over every indicator of `meta`. */
  method ApplyTranslations(meta: Meta, table: map<string, Value>) returns (out: Meta)
    requires MetaValid(meta)
    ensures out == ApplySpec(meta, table)
  {
    out := meta;
    var i := 0;
    while i < |meta.order|
      invariant RecordsTranslated(meta, out, table, i)
    {
      RecordsTranslatedStep(meta, out, table, i);
      var inid := meta.order[i];
      var rec := TranslateItems(out.entries[inid], table);
      out := out.Put(inid, rec);
      i := i + 1;
    }
    RecordsTranslatedDone(meta, out, table);
  }

  // ---------------------------------------------------------------------------
  // The report
  // ---------------------------------------------------------------------------

  /** What the script has written when it stops: the strings passed to `f.write`, and the exception if
      it raised one. */
  datatype Written = Written(writes: seq<string>, failure: Option<Error>)

  /** An indicator is reported when the part of its id before the first '-' is one of `goals`. */
  predicate Reported(inid: string)
  {
    BeforeFirst(inid, '-') in Goals
  }

  /** The write for one field: none for null or blank values, an error for values that are neither null
      nor strings. */
  function FieldLine(inid: string, key: string, v: Value, unescape: string -> string): Result<Option<string>, Error>
  {
    match v
    case Null => Ok(None)
    case Scalar(_) => Err(ValueNotText(inid, key))
    case Str(s) => if RStrip(s) == "" then Ok(None) else Ok(Some(key + ": " + unescape(s)))
  }

  /** `rec.items()`: the key-value pairs of a record, in order. */
  function Items(rec: Record): (items: seq<(string, Value)>)
    requires rec.Valid()
    ensures |items| == |rec.order|
    ensures forall j :: 0 <= j < |items| ==> items[j] == (rec.order[j], rec.entries[rec.order[j]])
  {
    seq(|rec.order|, j requires 0 <= j < |rec.order| => (rec.order[j], rec.entries[rec.order[j]]))
  }

  /** The items of a record name each of its keys exactly once, with that key's value. */
  lemma ItemsSpec(rec: Record)
    requires rec.Valid()
    ensures forall i, j :: 0 <= i < j < |Items(rec)| ==> Items(rec)[i].0 != Items(rec)[j].0
    ensures forall k :: k in rec.entries <==> exists j :: 0 <= j < |Items(rec)| && Items(rec)[j].0 == k
    ensures forall j :: 0 <= j < |Items(rec)| ==> Items(rec)[j].0 in rec.entries && Items(rec)[j].1 == rec.entries[Items(rec)[j].0]
  {
    var items := Items(rec);
    forall k | k in rec.entries ensures exists j :: 0 <= j < |items| && items[j].0 == k {
      var j :| 0 <= j < |rec.order| && rec.order[j] == k;
      assert items[j].0 == k;
    }
  }

  /** The field writes for `items` in order, up to the first error. */
  function FieldLines(inid: string, items: seq<(string, Value)>, unescape: string -> string): Written
  {
    if items == [] then Written([], None)
    else
      var w := FieldLines(inid, items[..|items| - 1], unescape);
      var (key, value) := items[|items| - 1];
      if w.failure.Some? then w
      else match FieldLine(inid, key, value, unescape)
        case Err(e) => Written(w.writes, Some(e))
        case Ok(None) => w
        case Ok(Some(line)) => Written(w.writes + [line], None)
  }

  /** The block of one indicator: its id, its field writes and `---`, cut short by an error. */
  function BlockOf(inid: string, rec: Record, unescape: string -> string): Written
    requires rec.Valid()
  {
    var f := FieldLines(inid, Items(rec), unescape);
    if f.failure.Some? then Written([inid] + f.writes, f.failure)
    else Written([inid] + f.writes + ["---"], None)
  }

  /** The report for the indicators `ids` of `meta`, in order, up to the first error. */
  function ReportSpec(meta: Meta, ids: seq<string>, unescape: string -> string): Written
    requires MetaValid(meta)
    requires forall id :: id in ids ==> id in meta.entries
  {
    if ids == [] then Written([], None)
    else
      var w := ReportSpec(meta, ids[..|ids| - 1], unescape);
      var inid := ids[|ids| - 1];
      if w.failure.Some? || !Reported(inid) then w
      else
        var b := BlockOf(inid, meta.entries[inid], unescape);
        Written(w.writes + b.writes, b.failure)
  }

  /** The writes for one block, one after the other. */
  method WriteBlock(inid: string, rec: Record, unescape: string -> string) returns (w: Written)
    requires rec.Valid()
    ensures w == BlockOf(inid, rec, unescape)
  {
    var items := Items(rec);
    var writes := [inid];
    var j := 0;
    while j < |items|
      invariant 0 <= j <= |items|
      invariant FieldLines(inid, items[..j], unescape).failure.None?
      invariant writes == [inid] + FieldLines(inid, items[..j], unescape).writes
    {
      var (key, value) := items[j];
      FieldLinesPrefix(inid, items, j, unescape);
      if value.Scalar? {
        w := Written(writes, Some(ValueNotText(inid, key)));
        FieldLinesErrStays(inid, items, j + 1, unescape);
        return;
      }
      if value.Str? && RStrip(value.s) != "" {
        writes := writes + [key + ": " + unescape(value.s)];
      }
      j := j + 1;
    }
    assert items[..|items|] == items;
    w := Written(writes + ["---"], None);
  }

  /** One more field extends the writes of the fields before it. */
  lemma FieldLinesPrefix(inid: string, items: seq<(string, Value)>, j: nat, unescape: string -> string)
    requires j < |items|
    ensures var w := FieldLines(inid, items[..j], unescape);
      FieldLines(inid, items[..j + 1], unescape) ==
        if w.failure.Some? then w
        else match FieldLine(inid, items[j].0, items[j].1, unescape)
          case Err(e) => Written(w.writes, Some(e))
          case Ok(None) => w
          case Ok(Some(line)) => Written(w.writes + [line], None)
  {
    assert items[..j + 1][..j] == items[..j];
  }

  lemma {:induction false} FieldLinesErrStays(inid: string, items: seq<(string, Value)>, n: nat, unescape: string -> string)
    requires n <= |items| && FieldLines(inid, items[..n], unescape).failure.Some?
    ensures FieldLines(inid, items, unescape) == FieldLines(inid, items[..n], unescape)
  {
    if n < |items| {
      var init := items[..|items| - 1];
      assert init[..n] == items[..n];
      FieldLinesErrStays(inid, init, n, unescape);
    } else {
      assert items[..n] == items;
    }
  }

  lemma {:induction false} ReportErrStays(meta: Meta, ids: seq<string>, n: nat, unescape: string -> string)
    requires MetaValid(meta) && forall id :: id in ids ==> id in meta.entries
    requires n <= |ids| && ReportSpec(meta, ids[..n], unescape).failure.Some?
    ensures ReportSpec(meta, ids, unescape) == ReportSpec(meta, ids[..n], unescape)
  {
    if n < |ids| {
      var init := ids[..|ids| - 1];
      assert init[..n] == ids[..n];
      ReportErrStays(meta, init, n, unescape);
    } else {
      assert ids[..n] == ids;
    }
  }

  /** One more indicator extends the report of the ones before it. */
  lemma ReportSpecPrefix(meta: Meta, ids: seq<string>, i: nat, unescape: string -> string)
    requires MetaValid(meta) && forall id :: id in ids ==> id in meta.entries
    requires i < |ids|
    ensures var w := ReportSpec(meta, ids[..i], unescape);
      ReportSpec(meta, ids[..i + 1], unescape) ==
        if w.failure.Some? || !Reported(ids[i]) then w
        else Written(w.writes + BlockOf(ids[i], meta.entries[ids[i]], unescape).writes,
                     BlockOf(ids[i], meta.entries[ids[i]], unescape).failure)
  {
    assert ids[..i + 1][..i] == ids[..i];
  }

  /** Writing `meta.txt`: a block for every reported indicator, in `meta` order. */
  method WriteReport(meta: Meta, unescape: string -> string) returns (w: Written)
    requires MetaValid(meta)
    ensures w == ReportSpec(meta, meta.order, unescape)
  {
    var writes: seq<string> := [];
    var i := 0;
    while i < |meta.order|
      invariant 0 <= i <= |meta.order|
      invariant ReportSpec(meta, meta.order[..i], unescape) == Written(writes, None)
    {
      var inid := meta.order[i];
      ReportSpecPrefix(meta, meta.order, i, unescape);
      if Reported(inid) {
        var b := WriteBlock(inid, meta.entries[inid], unescape);
        writes := writes + b.writes;
        if b.failure.Some? {
          w := Written(writes, b.failure);
          ReportErrStays(meta, meta.order, i + 1, unescape);
          return;
        }
      }
      i := i + 1;
    }
    assert meta.order[..|meta.order|] == meta.order;
    w := Written(writes, None);
  }

  // ---------------------------------------------------------------------------
  // The report, described block by block
  // ---------------------------------------------------------------------------

  /** The writes of the fields kept in a block: every string value that is not blank, in key order. */
  function KeptLines(items: seq<(string, Value)>, unescape: string -> string): seq<string>
  {
    if items == [] then []
    else
      var (key, v) := items[0];
      (if v.Str? && RStrip(v.s) != "" then [key + ": " + unescape(v.s)] else []) + KeptLines(items[1..], unescape)
  }

  /** No value among `items` is a non-string scalar. */
  predicate Textual(items: seq<(string, Value)>)
  {
    forall j :: 0 <= j < |items| ==> !items[j].1.Scalar?
  }

  lemma {:induction false} KeptLinesSnoc(items: seq<(string, Value)>, unescape: string -> string)
    requires items != []
    ensures KeptLines(items, unescape) == KeptLines(items[..|items| - 1], unescape) +
      (var (key, v) := items[|items| - 1]; if v.Str? && RStrip(v.s) != "" then [key + ": " + unescape(v.s)] else [])
  {
    if |items| > 1 {
      KeptLinesSnoc(items[1..], unescape);
      assert items[1..][..|items[1..]| - 1] == items[..|items| - 1][1..];
    }
  }

  /** The field writes are the writes of the non-blank string values; they fail exactly when some value
      is a non-string scalar. */
  lemma {:induction false} FieldLinesSpec(inid: string, items: seq<(string, Value)>, unescape: string -> string)
    ensures FieldLines(inid, items, unescape).failure.None? <==> Textual(items)
    ensures Textual(items) ==> FieldLines(inid, items, unescape).writes == KeptLines(items, unescape)
  {
    if items != [] {
      var init := items[..|items| - 1];
      FieldLinesSpec(inid, init, unescape);
      KeptLinesSnoc(items, unescape);
      assert forall j :: 0 <= j < |init| ==> init[j] == items[j];
    }
  }

  /** The ids that get a block, in order: exactly those of the goals in `goals`. */
  function ReportedIds(ids: seq<string>): (r: seq<string>)
    ensures forall id :: id in r <==> id in ids && Reported(id)
  {
    if ids == [] then []
    else ReportedIds(ids[..|ids| - 1]) + (if Reported(ids[|ids| - 1]) then [ids[|ids| - 1]] else [])
  }

  /** The filter keeps every occurrence of a reported id and none of the others. */
  lemma {:induction false} ReportedIdsCounts(ids: seq<string>)
    ensures forall id :: multiset(ReportedIds(ids))[id] == if Reported(id) then multiset(ids)[id] else 0
  {
    if ids != [] {
      ReportedIdsCounts(ids[..|ids| - 1]);
      assert ids == ids[..|ids| - 1] + [ids[|ids| - 1]];
    }
  }

  /** The filter keeps the relative order of the ids: filtering a concatenation concatenates the filtered parts. */
  lemma {:induction false} ReportedIdsAppend(a: seq<string>, b: seq<string>)
    ensures ReportedIds(a + b) == ReportedIds(a) + ReportedIds(b)
  {
    if b == [] {
      assert a + b == a;
    } else {
      var init := b[..|b| - 1];
      ReportedIdsAppend(a, init);
      assert (a + b)[..|a + b| - 1] == a + init && (a + b)[|a + b| - 1] == b[|b| - 1];
    }
  }

  /** A complete block: the id, one line per non-blank string value, and `---`. */
  function CompleteBlock(inid: string, rec: Record, unescape: string -> string): seq<string>
    requires rec.Valid()
  {
    [inid] + KeptLines(Items(rec), unescape) + ["---"]
  }

  /** The complete blocks of `ids`, one after the other. */
  function Blocks(meta: Meta, ids: seq<string>, unescape: string -> string): seq<string>
    requires MetaValid(meta) && forall id :: id in ids ==> id in meta.entries
  {
    if ids == [] then []
    else
      var inid := ids[|ids| - 1];
      Blocks(meta, ids[..|ids| - 1], unescape) + CompleteBlock(inid, meta.entries[inid], unescape)
  }

  predicate AllTextual(meta: Meta, ids: seq<string>)
    requires MetaValid(meta) && forall id :: id in ids ==> id in meta.entries
  {
    forall id :: id in ids ==> Textual(Items(meta.entries[id]))
  }

  lemma ReportedSnoc(ids: seq<string>)
    requires ids != []
    ensures ReportedIds(ids) == ReportedIds(ids[..|ids| - 1]) +
      (if Reported(ids[|ids| - 1]) then [ids[|ids| - 1]] else [])
  {
  }

  lemma AllTextualSnoc(meta: Meta, r: seq<string>)
    requires r != [] && MetaValid(meta) && forall id :: id in r ==> id in meta.entries
    ensures AllTextual(meta, r) <==>
      && AllTextual(meta, r[..|r| - 1])
      && Textual(Items(meta.entries[r[|r| - 1]]))
  {
    assert forall id :: id in r <==> id in r[..|r| - 1] || id == r[|r| - 1];
  }

  lemma ReportSpecSnoc(meta: Meta, ids: seq<string>, unescape: string -> string)
    requires ids != [] && MetaValid(meta) && forall id :: id in ids ==> id in meta.entries
    ensures forall id :: id in ids[..|ids| - 1] ==> id in meta.entries
    ensures var w := ReportSpec(meta, ids[..|ids| - 1], unescape);
      var inid := ids[|ids| - 1];
      ReportSpec(meta, ids, unescape) ==
        if w.failure.Some? || !Reported(inid) then w
        else Written(w.writes + BlockOf(inid, meta.entries[inid], unescape).writes,
                     BlockOf(inid, meta.entries[inid], unescape).failure)
  {
    assert forall id :: id in ids[..|ids| - 1] ==> id in ids;
  }

  /** A block is complete exactly when its record is textual, and then it holds the kept writes. */
  lemma BlockOfSpec(inid: string, rec: Record, unescape: string -> string)
    requires rec.Valid()
    ensures BlockOf(inid, rec, unescape).failure.None? <==> Textual(Items(rec))
    ensures Textual(Items(rec)) ==>
      BlockOf(inid, rec, unescape).writes == CompleteBlock(inid, rec, unescape)
  {
    FieldLinesSpec(inid, Items(rec), unescape);
  }

  lemma BlocksSnoc(meta: Meta, r: seq<string>, unescape: string -> string)
    requires r != [] && MetaValid(meta) && forall id :: id in r ==> id in meta.entries
    ensures forall id :: id in r[..|r| - 1] ==> id in meta.entries
    ensures Blocks(meta, r, unescape) ==
      Blocks(meta, r[..|r| - 1], unescape) + CompleteBlock(r[|r| - 1], meta.entries[r[|r| - 1]], unescape)
  {
    assert forall id :: id in r[..|r| - 1] ==> id in r;
  }

  /** The step on a reported indicator: the report grows by its block. */
  lemma ReportSpecReportedStep(meta: Meta, ids: seq<string>, unescape: string -> string)
    requires ids != [] && MetaValid(meta) && forall id :: id in ids ==> id in meta.entries
    requires Reported(ids[|ids| - 1])
    requires var init := ids[..|ids| - 1];
      && (forall id :: id in init ==> id in meta.entries)
      && (ReportSpec(meta, init, unescape).failure.None? <==> AllTextual(meta, ReportedIds(init)))
      && (AllTextual(meta, ReportedIds(init)) ==>
          ReportSpec(meta, init, unescape).writes == Blocks(meta, ReportedIds(init), unescape))
    ensures ReportSpec(meta, ids, unescape).failure.None? <==> AllTextual(meta, ReportedIds(ids))
    ensures AllTextual(meta, ReportedIds(ids)) ==>
      ReportSpec(meta, ids, unescape).writes == Blocks(meta, ReportedIds(ids), unescape)
  {
    var init, inid := ids[..|ids| - 1], ids[|ids| - 1];
    var rec := meta.entries[inid];
    ReportSpecSnoc(meta, ids, unescape);
    BlockOfSpec(inid, rec, unescape);
    ReportedSnoc(ids);
    var r := ReportedIds(ids);
    var r0 := ReportedIds(init);
    assert r[..|r| - 1] == r0 && r[|r| - 1] == inid;
    AllTextualSnoc(meta, r);
    BlocksSnoc(meta, r, unescape);
  }

  lemma ReportSpecBlocksStep(meta: Meta, ids: seq<string>, unescape: string -> string)
    requires ids != [] && MetaValid(meta) && forall id :: id in ids ==> id in meta.entries
    requires var init := ids[..|ids| - 1];
      && (forall id :: id in init ==> id in meta.entries)
      && (ReportSpec(meta, init, unescape).failure.None? <==> AllTextual(meta, ReportedIds(init)))
      && (AllTextual(meta, ReportedIds(init)) ==>
          ReportSpec(meta, init, unescape).writes == Blocks(meta, ReportedIds(init), unescape))
    ensures ReportSpec(meta, ids, unescape).failure.None? <==> AllTextual(meta, ReportedIds(ids))
    ensures AllTextual(meta, ReportedIds(ids)) ==>
      ReportSpec(meta, ids, unescape).writes == Blocks(meta, ReportedIds(ids), unescape)
  {
    if Reported(ids[|ids| - 1]) {
      ReportSpecReportedStep(meta, ids, unescape);
    } else {
      var init := ids[..|ids| - 1];
      ReportedSnoc(ids);
      ReportSpecSnoc(meta, ids, unescape);
      assert ReportedIds(ids) == ReportedIds(init);
      assert ReportSpec(meta, ids, unescape) == ReportSpec(meta, init, unescape);
    }
  }

  /** The report is complete exactly when every reported record holds only strings and nulls, and then
      it is the block of each reported indicator, in order: its id, one line per non-blank string value,
      and `---`. */
  lemma {:induction false} ReportSpecBlocks(meta: Meta, ids: seq<string>, unescape: string -> string)
    requires MetaValid(meta) && forall id :: id in ids ==> id in meta.entries
    ensures ReportSpec(meta, ids, unescape).failure.None? <==> AllTextual(meta, ReportedIds(ids))
    ensures AllTextual(meta, ReportedIds(ids)) ==>
      ReportSpec(meta, ids, unescape).writes == Blocks(meta, ReportedIds(ids), unescape)
  {
    if ids != [] {
      var init := ids[..|ids| - 1];
      assert forall id :: id in init ==> id in ids;
      ReportSpecBlocks(meta, init, unescape);
      ReportSpecBlocksStep(meta, ids, unescape);
    }
  }

  // ---------------------------------------------------------------------------
  // The whole script
  // ---------------------------------------------------------------------------

  /** What the script leaves behind: the exception raised before `meta.txt` is opened, or what it wrote there. */
  function FilterSpec(metaFiles: seq<YamlFile>, configFiles: seq<YamlFile>, translationFiles: seq<YamlFile>,
                      unescape: string -> string): Result<Written, Error>
  {
    MetaSpecValid(metaFiles, ConfigIndex(configFiles));
    match MetaSpec(metaFiles, ConfigIndex(configFiles))
    case Err(e) => Err(e)
    case Ok(meta) =>
      ApplySpecValid(meta, TranslationSpec(translationFiles));
      var translated := ApplySpec(meta, TranslationSpec(translationFiles));
      Ok(ReportSpec(translated, translated.order, unescape))
  }

  /** The script, step by step. */
  method FilterMetadata(metaFiles: seq<YamlFile>, configFiles: seq<YamlFile>, translationFiles: seq<YamlFile>,
                        unescape: string -> string) returns (r: Result<Written, Error>)
    ensures r == FilterSpec(metaFiles, configFiles, translationFiles, unescape)
  {
    var collected := CollectMeta(metaFiles, configFiles);
    if collected.Err? {
      return Err(collected.error);
    }
    MetaSpecValid(metaFiles, ConfigIndex(configFiles));
    var meta := collected.value;
    var translations := BuildTranslations(translationFiles);
    ApplySpecValid(meta, translations);
    meta := ApplyTranslations(meta, translations);
    var written := WriteReport(meta, unescape);
    r := Ok(written);
    assert r == FilterSpec(metaFiles, configFiles, translationFiles, unescape);
  }
}
