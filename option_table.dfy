/**
 * The option table the ArgumentCompleter constructor builds from the
 * @Option-annotated fields of a command's action class: `fields` maps each
 * declared option to the type of the field it annotates, `options` maps
 * each option name and alias to its option, and the HELP option is put
 * last.
 */
module OptionTable {
  import opened Wrappers

  /** An @Option annotation; two annotations with the same name and aliases
      are equal. */
  datatype OptionSpec = OptionSpec(name: string, aliases: seq<string>)

  /** An option the `options` map can hold: an annotation found on a
      declared field, or the HELP instance. HELP is an object of its own
      that annotates no field, so it stays distinct from a declared
      annotation even when that one has the same name and aliases. */
  datatype OptionRef = Declared(spec: OptionSpec) | Help(spec: OptionSpec)

  /** What Field.getType() reports for an annotated field. */
  datatype FieldType = PrimitiveBoolean | BoxedBoolean | OtherType(typeName: string)

  /** One declared field of the action class or of a superclass, listed in
      the order the reflection loop visits them; `annotation` is None for a
      field without @Option. */
  datatype FieldDecl = FieldDecl(annotation: Option<OptionSpec>, fieldType: FieldType)

  /** The `fields` map after visiting decls: each annotation keys the type
      of its field, a later field with an equal annotation overwriting an
      earlier one. */
  function FieldTable(decls: seq<FieldDecl>): map<OptionSpec, FieldType>
  {
    if |decls| == 0 then map[]
    else
      var m := FieldTable(decls[..|decls| - 1]);
      var d := decls[|decls| - 1];
      if d.annotation.Some? then m[d.annotation.value := d.fieldType] else m
  }

  /** options.put(alias, option) for each alias in turn. */
  function PutAliases(m: map<string, OptionRef>, aliases: seq<string>, option: OptionRef): map<string, OptionRef>
  {
    if |aliases| == 0 then m
    else PutAliases(m, aliases[..|aliases| - 1], option)[aliases[|aliases| - 1] := option]
  }

  /** The puts for one annotated field: its name, then its aliases. */
  function Register(m: map<string, OptionRef>, option: OptionSpec): map<string, OptionRef>
  {
    PutAliases(m[option.name := Declared(option)], option.aliases, Declared(option))
  }

  /** The `options` map after visiting decls, before HELP is put. */
  function DeclaredOptions(decls: seq<FieldDecl>): map<string, OptionRef>
  {
    if |decls| == 0 then map[]
    else
      var m := DeclaredOptions(decls[..|decls| - 1]);
      var d := decls[|decls| - 1];
      if d.annotation.Some? then Register(m, d.annotation.value) else m
  }

  /** The finished `options` map: HELP is put last and unconditionally. */
  function Options(decls: seq<FieldDecl>, help: OptionSpec): map<string, OptionRef>
  {
    DeclaredOptions(decls)[help.name := Help(help)]
  }

  /** A field type other than boolean and Boolean. */
  predicate ValueType(t: FieldType)
  {
    t != PrimitiveBoolean && t != BoxedBoolean
  }

  /** An option takes a value when fields.get(option) is a field whose type
      is neither boolean nor Boolean; HELP is never a key of `fields`. */
  predicate TakesValue(fields: map<OptionSpec, FieldType>, option: OptionRef)
  {
    option.Declared? && option.spec in fields && ValueType(fields[option.spec])
  }

  /** The field d puts `key` into `options`. */
  predicate Registers(d: FieldDecl, key: string)
  {
    d.annotation.Some? && (key == d.annotation.value.name || key in d.annotation.value.aliases)
  }

  lemma {:induction false} PutAliasesEntries(m: map<string, OptionRef>, aliases: seq<string>, option: OptionRef, key: string)
    ensures key in PutAliases(m, aliases, option) <==> key in m || key in aliases
    ensures key in aliases ==> PutAliases(m, aliases, option)[key] == option
    ensures key !in aliases && key in m ==> PutAliases(m, aliases, option)[key] == m[key]
    decreases |aliases|
  {
    if |aliases| > 0 {
      var init := aliases[..|aliases| - 1];
      PutAliasesEntries(m, init, option, key);
      assert aliases == init + [aliases[|aliases| - 1]];
    }
  }

  /** Registering an option maps its name and every alias to it and leaves
      every other key as it was. */
  lemma RegisterEntries(m: map<string, OptionRef>, option: OptionSpec, key: string)
    ensures key in Register(m, option) <==> key in m || key == option.name || key in option.aliases
    ensures key == option.name || key in option.aliases ==> Register(m, option)[key] == Declared(option)
    ensures key != option.name && key !in option.aliases && key in m ==> Register(m, option)[key] == m[key]
  {
    PutAliasesEntries(m[option.name := Declared(option)], option.aliases, Declared(option), key);
  }

  /** decls[i] is the last field that puts key into `options`. */
  predicate LastToRegister(decls: seq<FieldDecl>, i: int, key: string)
  {
    0 <= i < |decls| && Registers(decls[i], key) &&
    forall j :: i < j < |decls| ==> !Registers(decls[j], key)
  }

  /** decls[i] is the last field annotated with option. */
  predicate LastToAnnotate(decls: seq<FieldDecl>, i: int, option: OptionSpec)
  {
    0 <= i < |decls| && decls[i].annotation == Some(option) &&
    forall j :: i < j < |decls| ==> decls[j].annotation != Some(option)
  }

  /** A key of the declared table is a name or alias of some annotated
      field. */
  lemma {:induction false} DeclaredOptionsKeys(decls: seq<FieldDecl>, key: string)
    ensures key in DeclaredOptions(decls) <==> exists i :: 0 <= i < |decls| && Registers(decls[i], key)
    decreases |decls|
  {
    if |decls| > 0 {
      var n := |decls| - 1;
      var init := decls[..n];
      DeclaredOptionsKeys(init, key);
      var d := decls[n];
      if d.annotation.Some? {
        RegisterEntries(DeclaredOptions(init), d.annotation.value, key);
      }
      assert forall i :: 0 <= i < n ==> init[i] == decls[i];
    }
  }

  /** Later puts win: a key maps to the option of the last field that
      registers it. */
  lemma {:induction false} DeclaredOptionsLastWins(decls: seq<FieldDecl>, key: string, i: int)
    requires LastToRegister(decls, i, key)
    ensures key in DeclaredOptions(decls) && DeclaredOptions(decls)[key] == Declared(decls[i].annotation.value)
    decreases |decls|
  {
    var n := |decls| - 1;
    var init := decls[..n];
    var d := decls[n];
    if d.annotation.Some? {
      RegisterEntries(DeclaredOptions(init), d.annotation.value, key);
    }
    if i < n {
      assert LastToRegister(init, i, key);
      DeclaredOptionsLastWins(init, key, i);
    }
  }

  /** The finished table: HELP's name maps to HELP whatever was declared
      under that name; every other key is a declared name or alias and maps
      to the option of the last field that registers it. */
  lemma OptionsEntries(decls: seq<FieldDecl>, help: OptionSpec, key: string, i: int)
    ensures help.name in Options(decls, help) && Options(decls, help)[help.name] == Help(help)
    ensures key in Options(decls, help) <==>
      key == help.name || exists k :: 0 <= k < |decls| && Registers(decls[k], key)
    ensures key != help.name && LastToRegister(decls, i, key) ==> Options(decls, help)[key] == Declared(decls[i].annotation.value)
  {
    DeclaredOptionsKeys(decls, key);
    if key != help.name && LastToRegister(decls, i, key) {
      DeclaredOptionsLastWins(decls, key, i);
    }
  }

  /** The field table holds exactly the declared annotations. */
  lemma {:induction false} FieldTableKeys(decls: seq<FieldDecl>, option: OptionSpec)
    ensures option in FieldTable(decls) <==> exists i :: 0 <= i < |decls| && decls[i].annotation == Some(option)
    decreases |decls|
  {
    if |decls| > 0 {
      var n := |decls| - 1;
      var init := decls[..n];
      FieldTableKeys(init, option);
      assert forall i :: 0 <= i < n ==> init[i] == decls[i];
    }
  }

  /** Each annotation is keyed to the type of the last field carrying it. */
  lemma {:induction false} FieldTableLastWins(decls: seq<FieldDecl>, option: OptionSpec, i: int)
    requires LastToAnnotate(decls, i, option)
    ensures option in FieldTable(decls) && FieldTable(decls)[option] == decls[i].fieldType
    decreases |decls|
  {
    var n := |decls| - 1;
    var init := decls[..n];
    if i < n {
      assert LastToAnnotate(init, i, option);
      FieldTableLastWins(init, option, i);
    }
  }

  /** HELP annotates no field, so it never takes a value, whatever the
      declared fields are called. */
  lemma HelpTakesNoValue(decls: seq<FieldDecl>, help: OptionSpec)
    ensures help.name in Options(decls, help)
    ensures !TakesValue(FieldTable(decls), Options(decls, help)[help.name])
  {
  }

  /** Any other key takes a value exactly when the last field annotated
      with the option that last registered the key has a type other than
      boolean and Boolean. */
  lemma DeclaredTakesValue(decls: seq<FieldDecl>, help: OptionSpec, key: string, i: int, j: int)
    requires key != help.name && LastToRegister(decls, i, key)
    requires LastToAnnotate(decls, j, decls[i].annotation.value)
    ensures key in Options(decls, help)
    ensures TakesValue(FieldTable(decls), Options(decls, help)[key]) <==> ValueType(decls[j].fieldType)
  {
    DeclaredOptionsLastWins(decls, key, i);
    FieldTableLastWins(decls, decls[i].annotation.value, j);
  }

  /** An option no field carries never takes a value. */
  lemma UnannotatedTakesNoValue(decls: seq<FieldDecl>, option: OptionSpec)
    requires forall k :: 0 <= k < |decls| ==> decls[k].annotation != Some(option)
    ensures !TakesValue(FieldTable(decls), Declared(option))
  {
    FieldTableKeys(decls, option);
  }
}
