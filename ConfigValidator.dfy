/**
 * `validateConfig` of `launcher_builder_config.json`: first the required
 * fields that are missing (falsy), then those that are not strings. Either
 * list, when non-empty, is reported and ends the process.
 */
module ConfigValidator {
  import opened Js

  /** The parsed configuration object. */
  type Config = map<string, JsValue>

  const RequiredFields: seq<string> := ["gameVersion", "fabricLoaderVersion", "repoUser", "repoName", "branch"]

  /** A field with the wrong type, reported with its `typeof`. */
  datatype TypeProblem = TypeProblem(field: string, typeOf: string)

  /** `Valid`, or the report the process exits with. */
  datatype Verdict = Valid | MissingFields(missing: seq<string>) | InvalidTypes(invalid: seq<TypeProblem>)

  /** `fields.filter(field => !config[field])`. */
  function MissingAmong(config: Config, fields: seq<string>): seq<string>
    decreases |fields|
  {
    if fields == [] then []
    else (if !Truthy(Get(config, fields[0])) then [fields[0]] else []) + MissingAmong(config, fields[1..])
  }

  /** `fields.filter(field => typeof config[field] !== 'string')`, each with its type. */
  function NonStringAmong(config: Config, fields: seq<string>): seq<TypeProblem>
    decreases |fields|
  {
    if fields == [] then []
    else
      var v := Get(config, fields[0]);
      (if TypeOf(v) != "string" then [TypeProblem(fields[0], TypeOf(v))] else []) + NonStringAmong(config, fields[1..])
  }

  function ValidateConfig(config: Config): Verdict {
    var missing := MissingAmong(config, RequiredFields);
    if |missing| > 0 then MissingFields(missing)
    else
      var invalid := NonStringAmong(config, RequiredFields);
      if |invalid| > 0 then InvalidTypes(invalid) else Valid
  }

  /** The missing list holds exactly the falsy fields, an empty string among them. */
  lemma {:induction false} MissingAmongExact(config: Config, fields: seq<string>)
    ensures forall f :: f in MissingAmong(config, fields) <==> f in fields && !Truthy(Get(config, f))
    decreases |fields|
  {
    if fields != [] {
      MissingAmongExact(config, fields[1..]);
    }
  }

  /** The type report holds exactly the fields whose value is not a string, each with its `typeof`. */
  lemma {:induction false} NonStringAmongExact(config: Config, fields: seq<string>)
    ensures forall p :: p in NonStringAmong(config, fields) <==>
      p.field in fields && TypeOf(Get(config, p.field)) != "string" && p.typeOf == TypeOf(Get(config, p.field))
    decreases |fields|
  {
    if fields != [] {
      NonStringAmongExact(config, fields[1..]);
    }
  }

  /**
   * The missing-field report comes first: with any field falsy the verdict is
   * that report, and the type check is never reached.
   */
  lemma MissingReportedFirst(config: Config)
    ensures (exists f :: f in RequiredFields && !Truthy(Get(config, f))) <==> ValidateConfig(config).MissingFields?
    ensures ValidateConfig(config).MissingFields? ==>
      forall f :: f in ValidateConfig(config).missing <==> f in RequiredFields && !Truthy(Get(config, f))
  {
    MissingAmongExact(config, RequiredFields);
    if exists f :: f in RequiredFields && !Truthy(Get(config, f)) {
      var f :| f in RequiredFields && !Truthy(Get(config, f));
      assert f in MissingAmong(config, RequiredFields);
    }
  }

  lemma {:induction false} NoneMissing(config: Config, fields: seq<string>)
    ensures MissingAmong(config, fields) == [] <==> forall f :: f in fields ==> Truthy(Get(config, f))
    decreases |fields|
  {
    if fields != [] {
      NoneMissing(config, fields[1..]);
      assert forall f :: f in fields <==> f == fields[0] || f in fields[1..];
    }
  }

  lemma TypeOfString(v: JsValue)
    ensures TypeOf(v) == "string" <==> v.Str?
  {
  }

  /** A truthy field that is not a string (a number, say) is reported with its type. */
  lemma TypesReportedSecond(config: Config)
    requires ValidateConfig(config).InvalidTypes?
    ensures forall f :: f in RequiredFields ==> Truthy(Get(config, f))
    ensures forall p :: p in ValidateConfig(config).invalid <==>
      p.field in RequiredFields && !Get(config, p.field).Str? && p.typeOf == TypeOf(Get(config, p.field))
  {
    NoneMissing(config, RequiredFields);
    NonStringAmongExact(config, RequiredFields);
    forall p: TypeProblem ensures TypeOf(Get(config, p.field)) != "string" <==> !Get(config, p.field).Str? {
      TypeOfString(Get(config, p.field));
    }
  }

  lemma {:induction false} NothingToReport(config: Config, fields: seq<string>)
    ensures MissingAmong(config, fields) == [] && NonStringAmong(config, fields) == [] <==>
      forall f :: f in fields ==> Get(config, f).Str? && Get(config, f).s != ""
    decreases |fields|
  {
    if fields != [] {
      NothingToReport(config, fields[1..]);
      assert forall f :: f in fields <==> f == fields[0] || f in fields[1..];
    }
  }

  /** Validation succeeds exactly when all five fields are non-empty strings. */
  lemma ValidIff(config: Config)
    ensures ValidateConfig(config) == Valid <==>
      forall f :: f in RequiredFields ==> Get(config, f).Str? && Get(config, f).s != ""
  {
    NothingToReport(config, RequiredFields);
  }
}
