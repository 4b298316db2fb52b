/** Merging a module's answers into the shared configuration file. */
module ConfigMerge {
  import opened Options
  import ResultTemplates

  type Key = string

  /** A YAML value: a mapping, a text, or anything else, by what str() prints for it. */
  datatype Value = Dict(entries: map<Key, Value>) | Text(text: string) | Other(printed: string)

  type Config = map<Key, Value>

  const CORE: Key := "core"

  /** Keys that belong to the user's own file only. */
  const CORE_USER_KEYS: seq<Key> := ["user_name", "communication_language"]

  predicate IsUserKey(k: Key) {
    k in CORE_USER_KEYS
  }

  /** The answers: core values, and the module's values as they were given. */
  datatype Answers = Answers(core: Config, moduleValues: Config)

  /** The contents of module.yaml; how str() prints a mapping is left open. */
  datatype ModuleFile = ModuleFile(yaml: Config, printed: Config -> string)

  function Lookup(c: Config, k: Key): Option<Value> {
    if k in c then Some(c[k]) else None
  }

  // ----- the module section -----

  /** Everything of module.yaml that is not a variable; a missing version is written as null. */
  function Metadata(moduleYaml: Config): Config {
    (map k | k in moduleYaml && (k == "name" || k == "description") :: moduleYaml[k])
    + map["version" := Lookup(moduleYaml, "module_version").GetOr(Other("None"))]
    + (map k | k in moduleYaml && k == "default_selected" :: moduleYaml[k])
  }

  /** str(value) */
  function Printed(file: ModuleFile, v: Value): string {
    match v
    case Dict(entries) => file.printed(entries)
    case Text(text) => text
    case Other(printed) => printed
  }

  /** The variable has a result template, and the answer does not name the project root yet. */
  predicate NeedsTemplate(file: ModuleFile, k: Key, v: Value) {
    && k in file.yaml && file.yaml[k].Dict? && "result" in file.yaml[k].entries
    && !ResultTemplates.Contains(Printed(file, v), ResultTemplates.ROOT)
  }

  function Template(file: ModuleFile, k: Key): Value
    requires k in file.yaml && file.yaml[k].Dict? && "result" in file.yaml[k].entries
  {
    file.yaml[k].entries["result"]
  }

  /** The template that is needed is no text: the program stops. */
  predicate HasBadTemplate(file: ModuleFile, k: Key, v: Value) {
    NeedsTemplate(file, k, v) && !Template(file, k).Text?
  }

  predicate Stops(file: ModuleFile, values: Config) {
    exists k :: k in values && HasBadTemplate(file, k, values[k])
  }

  /** The answer as its variable's result template turns it out, if it needs it. */
  function Transformed(file: ModuleFile, k: Key, v: Value): Value {
    if NeedsTemplate(file, k, v) && Template(file, k).Text?
    then Text(ResultTemplates.Fill(Template(file, k).text, Printed(file, v)))
    else v
  }

  function AllTransformed(file: ModuleFile, values: Config): Config {
    map k | k in values :: Transformed(file, k, values[k])
  }

  function Section(file: ModuleFile, answers: Answers): Value {
    Dict(Metadata(file.yaml) + AllTransformed(file, answers.moduleValues))
  }

  // ----- the merge -----

  /** A legacy core section moves to the root. */
  function Migrated(c: Config): Config {
    if CORE in c && c[CORE].Dict? then (c - {CORE}) + c[CORE].entries else c
  }

  function WithoutUserKeys(c: Config): Config {
    map k | k in c && !IsUserKey(k) :: c[k]
  }

  function Merged(c: Config, code: Key, file: ModuleFile, answers: Answers): Config {
    (WithoutUserKeys(Migrated(c)) + WithoutUserKeys(answers.core))[code := Section(file, answers)]
  }

  /** None when the program stops: module.yaml has no code, or a template that is no text is needed. */
  method MergeConfig(existing: Config, code: Option<Key>, file: ModuleFile, answers: Answers)
    returns (r: Option<Config>)
    ensures r == if code.None? || code.value == "" || Stops(file, answers.moduleValues) then None
                 else Some(Merged(existing, code.value, file, answers))
  {
    if code.None? || code.value == "" {
      return None;
    }
    var config := LiftCore(existing);
    config := DropUserKeys(config);
    var sharedCore := WithoutUserKeys(answers.core);
    if sharedCore != map[] {
      config := config + sharedCore;
    }
    assert config == WithoutUserKeys(Migrated(existing)) + sharedCore;
    var values := ApplyResultTemplates(file, answers.moduleValues);
    if values.None? {
      return None;
    }
    config := ReplaceSection(config, code.value, Dict(Metadata(file.yaml) + values.value));
    r := Some(config);
  }

  /** Remove the module's old section before writing the new one. */
  method ReplaceSection(c: Config, code: Key, section: Value) returns (config: Config)
    ensures config == c[code := section]
  {
    config := c;
    if code in config {
      config := config - {code};
    }
    config := config[code := section];
  }

  /** Move the entries of a nested core section to the root. */
  method LiftCore(existing: Config) returns (config: Config)
    ensures config == Migrated(existing)
  {
    config := existing;
    if CORE in config && config[CORE].Dict? {
      var core := config[CORE].entries;
      config := config - {CORE};
      config := config + core;
    }
  }

  /** The loop over the module's answers. */
  method ApplyResultTemplates(file: ModuleFile, values: Config) returns (r: Option<Config>)
    ensures r == if Stops(file, values) then None else Some(AllTransformed(file, values))
  {
    var transformed: Config := map[];
    var todo := values.Keys;
    while todo != {}
      invariant todo <= values.Keys
      invariant transformed == map k | k in values && k !in todo :: Transformed(file, k, values[k])
      invariant forall k :: k in values && k !in todo ==> !HasBadTemplate(file, k, values[k])
      decreases todo
    {
      var k :| k in todo;
      if HasBadTemplate(file, k, values[k]) {
        return None;
      }
      transformed := transformed[k := Transformed(file, k, values[k])];
      todo := todo - {k};
    }
    assert transformed == AllTransformed(file, values);
    r := Some(transformed);
  }

  /** For an answer that is a text this is the template as applied once. */
  lemma TextAnswer(file: ModuleFile, k: Key, v: Value)
    requires k in file.yaml && file.yaml[k].Dict? && "result" in file.yaml[k].entries
    requires v.Text? && Template(file, k).Text?
    ensures Transformed(file, k, v) == Text(ResultTemplates.Apply(Template(file, k).text, v.text))
  {
  }

  /** The loop that strips the user-only keys. */
  method DropUserKeys(c: Config) returns (config: Config)
    ensures config == WithoutUserKeys(c)
  {
    config := c;
    for i := 0 to |CORE_USER_KEYS|
      invariant config == map k | k in c && k !in CORE_USER_KEYS[..i] :: c[k]
    {
      assert CORE_USER_KEYS[..i + 1] == CORE_USER_KEYS[..i] + [CORE_USER_KEYS[i]];
      if CORE_USER_KEYS[i] in config {
        config := config - {CORE_USER_KEYS[i]};
      }
    }
    assert CORE_USER_KEYS[..|CORE_USER_KEYS|] == CORE_USER_KEYS;
  }

  // ----- the merged file, key by key -----

  /** The text is str() of the value. */
  predicate Prints(file: ModuleFile, v: Value, text: string) {
    match v
    case Text(t) => text == t
    case Other(printed) => text == printed
    case Dict(entries) => text == file.printed(entries)
  }

  ghost predicate NamesRoot(file: ModuleFile, v: Value) {
    exists text, i: nat :: Prints(file, v, text) && ResultTemplates.Occurs(text, "{project-root}", i)
  }

  /** The variable has a result template. */
  predicate HasTemplate(file: ModuleFile, k: Key) {
    k in file.yaml && file.yaml[k].Dict? && "result" in file.yaml[k].entries
  }

  /** What is stored for an answer: itself, or the text of its template with str() of it filled in. */
  ghost predicate StoredFor(file: ModuleFile, k: Key, v: Value, stored: Value) {
    if HasTemplate(file, k) && !NamesRoot(file, v) then
      var template := file.yaml[k].entries["result"];
      && template.Text? && stored.Text?
      && exists text :: Prints(file, v, text) && ResultTemplates.FilledIn(template.text, text, stored.text)
    else stored == v
  }

  lemma NeedsTemplateExactly(file: ModuleFile, k: Key, v: Value)
    ensures NeedsTemplate(file, k, v) <==> HasTemplate(file, k) && !NamesRoot(file, v)
  {
    var text := Printed(file, v);
    assert Prints(file, v, text) && ResultTemplates.ROOT == "{project-root}";
    ResultTemplates.ContainsExactly(text, ResultTemplates.ROOT);
  }

  lemma TransformedExactly(file: ModuleFile, k: Key, v: Value)
    requires !HasBadTemplate(file, k, v)
    ensures StoredFor(file, k, v, Transformed(file, k, v))
  {
    NeedsTemplateExactly(file, k, v);
    if NeedsTemplate(file, k, v) {
      ResultTemplates.FillExactly(Template(file, k).text, Printed(file, v));
    }
  }

  /** The merge stops exactly at an answer whose variable has a template it needs that is no text. */
  lemma StopsExactly(file: ModuleFile, values: Config)
    ensures Stops(file, values) <==>
      exists k :: k in values && HasTemplate(file, k) && !NamesRoot(file, values[k])
                  && !file.yaml[k].entries["result"].Text?
  {
    if k :| k in values && HasBadTemplate(file, k, values[k]) {
      NeedsTemplateExactly(file, k, values[k]);
    }
    if k :| k in values && HasTemplate(file, k) && !NamesRoot(file, values[k])
            && !file.yaml[k].entries["result"].Text? {
      NeedsTemplateExactly(file, k, values[k]);
      assert HasBadTemplate(file, k, values[k]);
    }
  }

  /** The answers of the module are in its section, each as StoredFor says. */
  lemma SectionAnswers(c: Config, code: Key, file: ModuleFile, answers: Answers, k: Key)
    requires !Stops(file, answers.moduleValues) && k in answers.moduleValues
    ensures var m := Merged(c, code, file, answers);
      && code in m && m[code].Dict? && k in m[code].entries
      && StoredFor(file, k, answers.moduleValues[k], m[code].entries[k])
  {
    assert !HasBadTemplate(file, k, answers.moduleValues[k]);
    TransformedExactly(file, k, answers.moduleValues[k]);
  }

  /** Beside the answers, the section holds what module.yaml says of the module, and nothing else. */
  lemma SectionMetadata(c: Config, code: Key, file: ModuleFile, answers: Answers, k: Key)
    requires k !in answers.moduleValues
    ensures var m, yaml := Merged(c, code, file, answers), file.yaml;
      && code in m && m[code].Dict?
      && if k == "version" then
           k in m[code].entries
           && m[code].entries[k] == if "module_version" in yaml then yaml["module_version"] else Other("None")
         else if k == "name" || k == "description" || k == "default_selected" then
           (k in m[code].entries <==> k in yaml) && (k in yaml ==> m[code].entries[k] == yaml[k])
         else k !in m[code].entries
  {
  }

  /** At the root, answers go before a migrated core section, and that before the file as it was. */
  lemma RootExactly(c: Config, code: Key, file: ModuleFile, answers: Answers, k: Key)
    requires k != code
    ensures var m := Merged(c, code, file, answers);
      var migrates := "core" in c && c["core"].Dict?;
      if k == "user_name" || k == "communication_language" then k !in m
      else if k in answers.core then k in m && m[k] == answers.core[k]
      else if migrates && k in c["core"].entries then k in m && m[k] == c["core"].entries[k]
      else if migrates && k == "core" then k !in m
      else (k in m <==> k in c) && (k in c ==> m[k] == c[k])
  {
  }

  // ----- what the merge leaves alone -----

  /** Keys that are neither answered, migrated, user-only nor the module's own stay as they are. */
  lemma MergeFrame(c: Config, code: Key, file: ModuleFile, answers: Answers, k: Key)
    requires k != code && k != CORE && !IsUserKey(k) && k !in answers.core
    requires CORE in c && c[CORE].Dict? ==> k !in c[CORE].entries
    ensures Lookup(Merged(c, code, file, answers), k) == Lookup(c, k)
  {
  }

  /** A user-only key is gone from the root, unless it is the module's own code. */
  lemma UserKeysDropped(c: Config, code: Key, file: ModuleFile, answers: Answers, k: Key)
    requires IsUserKey(k)
    ensures k in Merged(c, code, file, answers) <==> k == code
  {
  }

  /** No trace of an earlier section of the module remains. */
  lemma SectionReplaced(c: Config, stale: Value, code: Key, file: ModuleFile, answers: Answers)
    requires code != CORE
    ensures Merged(c[code := stale], code, file, answers) == Merged(c - {code}, code, file, answers)
  {
  }

  // ----- defaults from an older installation -----

  /** Values of the older installation stand in for answers that were not given. */
  function WithDefaults(answers: Answers, legacyCore: Config, legacyModule: Config): Answers {
    Answers(legacyCore + answers.core, legacyModule + answers.moduleValues)
  }

  /** An answer that was given wins over the older installation. */
  lemma AnswersWin(answers: Answers, legacyCore: Config, legacyModule: Config, k: Key)
    ensures var filled := WithDefaults(answers, legacyCore, legacyModule);
      && Lookup(filled.core, k) == (if k in answers.core then Some(answers.core[k]) else Lookup(legacyCore, k))
      && Lookup(filled.moduleValues, k)
         == if k in answers.moduleValues then Some(answers.moduleValues[k]) else Lookup(legacyModule, k)
  {
  }

  /**
   * A core value taken over from an older installation survives a later merge without it; the same
   * is not so for the module's values, whose section is written anew from the answers alone.
   */
  lemma LegacyCoreStays(c: Config, code: Key, file: ModuleFile, answers: Answers,
                        legacyCore: Config, legacyModule: Config, k: Key)
    requires k in legacyCore && k !in answers.core && k != code && k != CORE && !IsUserKey(k)
    requires !HasCoreSection(Merged(c, code, file, WithDefaults(answers, legacyCore, legacyModule)))
    ensures var once := Merged(c, code, file, WithDefaults(answers, legacyCore, legacyModule));
      && Lookup(Merged(once, code, file, answers), k) == Some(legacyCore[k])
      && Merged(once, code, file, answers)[code] == Section(file, answers)
  {
    var once := Merged(c, code, file, WithDefaults(answers, legacyCore, legacyModule));
    MergeFrame(once, code, file, answers, k);
    assert k in WithoutUserKeys(legacyCore + answers.core);
  }

  // ----- merging twice -----

  ghost predicate HasCoreSection(c: Config) {
    CORE in c && c[CORE].Dict?
  }

  /** What a second merge would move out of a core section is there already, or is overwritten or dropped again. */
  ghost predicate Absorbed(nested: Config, c: Config, code: Key, core: Config) {
    forall k :: k in nested ==>
      k == CORE || k == code || IsUserKey(k) || k in core || Lookup(Migrated(c), k) == Some(nested[k])
  }

  /** Where a core section comes from that the merge leaves behind, and whether it does harm. */
  ghost predicate Repeatable(c: Config, code: Key, file: ModuleFile, answers: Answers) {
    if code == CORE then Absorbed(Section(file, answers).entries, c, code, answers.core)
    else if CORE in answers.core then
      answers.core[CORE].Dict? ==> Absorbed(answers.core[CORE].entries, c, code, answers.core)
    else !(HasCoreSection(c) && HasCoreSection(c[CORE].entries))
  }

  lemma SameLookups(a: Config, b: Config)
    requires forall k :: Lookup(a, k) == Lookup(b, k)
    ensures a == b
  {
    forall k
      ensures k in a <==> k in b
    {
      assert Lookup(a, k) == Lookup(b, k);
    }
    forall k | k in a
      ensures a[k] == b[k]
    {
      assert Lookup(a, k) == Lookup(b, k);
    }
  }

  lemma LookupMerged(c: Config, code: Key, file: ModuleFile, answers: Answers, k: Key)
    ensures Lookup(Merged(c, code, file, answers), k) ==
      if k == code then Some(Section(file, answers))
      else if IsUserKey(k) then None
      else if k in answers.core then Some(answers.core[k])
      else Lookup(Migrated(c), k)
  {
  }

  lemma LookupMigrated(c: Config, k: Key)
    ensures Lookup(Migrated(c), k) ==
      if !HasCoreSection(c) then Lookup(c, k)
      else if k in c[CORE].entries then Some(c[CORE].entries[k])
      else if k == CORE then None else Lookup(c, k)
  {
  }

  /** A mapping does not hold itself. */
  lemma NotInItself(v: Value, k: Key)
    requires v.Dict? && k in v.entries
    ensures v.entries[k] != v
  {
  }

  /** The value a second merge gives to a key, in terms of the first. */
  lemma LookupMergedAgain(c: Config, code: Key, file: ModuleFile, answers: Answers, k: Key)
    ensures var once := Merged(c, code, file, answers);
      var again := Merged(once, code, file, answers);
      Lookup(again, k) ==
        if k == code || IsUserKey(k) || k in answers.core || !HasCoreSection(once) then Lookup(once, k)
        else if k in once[CORE].entries then Some(once[CORE].entries[k])
        else if k == CORE then None else Lookup(once, k)
  {
    var once := Merged(c, code, file, answers);
    LookupMerged(c, code, file, answers, k);
    LookupMerged(once, code, file, answers, k);
    LookupMigrated(once, k);
  }

  /** The core section a merge leaves behind. */
  lemma CoreSectionLeft(c: Config, code: Key, file: ModuleFile, answers: Answers)
    ensures var once := Merged(c, code, file, answers);
      Lookup(once, CORE) ==
        if code == CORE then Some(Section(file, answers))
        else if CORE in answers.core then Some(answers.core[CORE])
        else Lookup(Migrated(c), CORE)
  {
    assert !IsUserKey(CORE);
    LookupMerged(c, code, file, answers, CORE);
  }

  /**
   * Merging the same answers twice equals merging once exactly if the merge leaves no core section
   * behind, or one whose entries are at the root already. With another code than core and no core
   * answer named core, that is: no core section was nested in the legacy core section.
   */
  lemma MergeTwice(c: Config, code: Key, file: ModuleFile, answers: Answers)
    ensures var once := Merged(c, code, file, answers);
      Merged(once, code, file, answers) == once <==> Repeatable(c, code, file, answers)
  {
    var once := Merged(c, code, file, answers);
    var again := Merged(once, code, file, answers);
    CoreSectionLeft(c, code, file, answers);
    LookupMigrated(c, CORE);
    if Repeatable(c, code, file, answers) {
      forall k
        ensures Lookup(again, k) == Lookup(once, k)
      {
        LookupMergedAgain(c, code, file, answers, k);
        LookupMerged(c, code, file, answers, k);
      }
      SameLookups(again, once);
    } else {
      var k := Culprit(c, code, file, answers);
      LookupMergedAgain(c, code, file, answers, k);
      LookupMerged(c, code, file, answers, k);
    }
  }

  /** A key whose value a second merge changes. */
  lemma Culprit(c: Config, code: Key, file: ModuleFile, answers: Answers) returns (k: Key)
    requires !Repeatable(c, code, file, answers)
    ensures var once := Merged(c, code, file, answers);
      && HasCoreSection(once) && k != code && !IsUserKey(k) && k !in answers.core
      && (if k == CORE then k in once[CORE].entries ==> once[CORE].entries[k] != once[CORE]
          else k in once[CORE].entries && Lookup(Migrated(c), k) != Some(once[CORE].entries[k]))
  {
    var once := Merged(c, code, file, answers);
    CoreSectionLeft(c, code, file, answers);
    LookupMigrated(c, CORE);
    assert !IsUserKey(CORE);
    var nested := once[CORE].entries;
    if code != CORE && CORE !in answers.core {
      k := CORE;
      if CORE in nested { NotInItself(once[CORE], CORE); }
    } else {
      k :| k in nested && k != CORE && k != code && !IsUserKey(k) && k !in answers.core
        && Lookup(Migrated(c), k) != Some(nested[k]);
    }
  }
}
