/** `transform` (app.js:124-133) and the per-record body of the input
    stream's `'data'` handler (app.js:79-98): each legacy seed is counted,
    converted when it has a url, and routed to the accepted or the rejected
    output. */
module Conversion {
  import opened Wrappers
  import opened Records
  import opened Text
  import opened UrlParsing
  import opened Classification
  import opened Profiles

  /** The record `transform` builds for a seed with a url, fields in the
      order the object literal evaluates them. */
  function Converted(parse: Parser, schools: seq<School>, seed: Seed): VeidemannSeed
    requires Truthy(seed.url) && parse(seed.url.value).Parsed?
  {
    var url := seed.url.value;
    VeidemannSeed(
      EntityName(parse, url).value,
      Uri(parse, url).value,
      seed.description,
      EntityLabelsOf(url, seed.description, schools),
      SeedLabelsOf(seed),
      "")
  }

  /** The error-URL lines `transform` writes: `getEntityName`'s, then
      `getUri`'s. */
  function ConversionLog(parse: Parser, seed: Seed): seq<Diagnostic>
    requires Truthy(seed.url) && parse(seed.url.value).Parsed?
  {
    EntityName(parse, seed.url.value).log + Uri(parse, seed.url.value).log
  }

  /** The handler's test: both the name and the uri are truthy. */
  predicate IsAccepted(rec: VeidemannSeed) {
    Truthy(rec.entityName) && Truthy(rec.uri)
  }

  /** `transform`, calling the label builders as the source does. */
  method Transform(parse: Parser, schools: seq<School>, seed: Seed) returns (rec: VeidemannSeed, log: seq<Diagnostic>)
    requires Truthy(seed.url) && parse(seed.url.value).Parsed?
    ensures rec == Converted(parse, schools, seed)
    ensures log == ConversionLog(parse, seed)
  {
    var url := seed.url.value;
    var name := EntityName(parse, url);
    var uri := Uri(parse, url);
    var entityLabel := EntityLabels(seed, schools);
    var seedLabel := SeedLabels(seed);
    rec := VeidemannSeed(name.value, uri.value, seed.description, entityLabel.value, seedLabel, "");
    log := name.log + uri.log;
  }

  /** The record keeps the description as read, `null` included, and always
      has an empty seed description; both label lists start with the
      provenance label. */
  lemma ConvertedFields(parse: Parser, schools: seq<School>, seed: Seed)
    requires Truthy(seed.url) && parse(seed.url.value).Parsed?
    ensures var rec := Converted(parse, schools, seed);
      rec.entityDescription == seed.description && rec.seedDescription == "" &&
      |rec.entityLabel| >= 1 && rec.entityLabel[0] == Provenance &&
      |rec.seedLabel| >= 1 && rec.seedLabel[0] == Provenance
  {
    SeedLabelsShape(seed);
  }

  /** A seed is accepted exactly when the parse attempt both derivations
      read is complete, has a hostname, and the name derived from that
      hostname is not empty. */
  lemma AcceptedIff(parse: Parser, schools: seq<School>, seed: Seed)
    requires Truthy(seed.url) && parse(seed.url.value).Parsed?
    ensures var a := Attempt(parse, seed.url.value);
      IsAccepted(Converted(parse, schools, seed)) <==>
        a.Some? && Complete(a.value) && Truthy(a.value.hostname) &&
        NameOfHost(a.value.hostname.value) != ""
  {
    var url := seed.url.value;
    UriAndNameReadOneAttempt(parse, url);
    var a := Attempt(parse, url);
    if a.Some? && Complete(a.value) {
      assert Truthy(parse(url).result.protocol) || a.value.slashes;
    }
  }

  /** A url whose host is `www.no` is rejected for its name: the name is
      the empty string, which is falsy. */
  lemma BareWwwHostRejected(parse: Parser, schools: seq<School>, seed: Seed)
    requires Truthy(seed.url) && parse(seed.url.value).Parsed?
    requires HostnameOf(parse, seed.url.value) == Some("www.no")
    ensures !IsAccepted(Converted(parse, schools, seed))
    ensures !Truthy(Converted(parse, schools, seed).entityName)
  {
    NameOfBareWwwHost();
  }

  /** The conversion writes at most two error-URL lines, and none for an
      accepted seed. */
  lemma ConversionLogBound(parse: Parser, schools: seq<School>, seed: Seed)
    requires Truthy(seed.url) && parse(seed.url.value).Parsed?
    ensures |ConversionLog(parse, seed)| <= 2
    ensures IsAccepted(Converted(parse, schools, seed)) ==> ConversionLog(parse, seed) == []
  {
  }

  /** The converter's state across records: the four counters of app.js:73-76
      and the accepted, rejected and error-URL outputs, and the number of
      url-less records skipped. */
  class Converter {
    const parse: Parser
    const schools: seq<School>
    var checked: nat
    var created: nat
    var invalidName: nat
    var invalidUrl: nat
    var accepted: seq<VeidemannSeed>
    var rejected: seq<VeidemannSeed>
    var errors: seq<Diagnostic>
    ghost var skipped: nat

    /** Every record checked is skipped, accepted or rejected; the created
        counter counts the accepted output; every rejected record is
        counted as an invalid name, an invalid url, or both; and the outputs
        hold only records of their kind. */
    ghost predicate Valid()
      reads this
    {
      checked == skipped + |accepted| + |rejected| &&
      created == |accepted| &&
      invalidName <= |rejected| && invalidUrl <= |rejected| &&
      |rejected| <= invalidName + invalidUrl &&
      (forall i | 0 <= i < |accepted| :: IsAccepted(accepted[i])) &&
      (forall i | 0 <= i < |rejected| :: !IsAccepted(rejected[i]))
    }

    constructor(parse: Parser, schools: seq<School>)
      ensures Valid()
      ensures this.parse == parse && this.schools == schools
      ensures checked == created == invalidName == invalidUrl == 0
      ensures accepted == rejected == [] && errors == []
    {
      this.parse := parse;
      this.schools := schools;
      checked, created, invalidName, invalidUrl := 0, 0, 0, 0;
      accepted, rejected, errors := [], [], [];
      skipped := 0;
    }

    /** The `'data'` handler for one record. */
    method Process(seed: Seed)
      requires Valid()
      requires Truthy(seed.url) ==> parse(seed.url.value).Parsed?
      modifies this
      ensures Valid()
      ensures checked == old(checked) + 1
      ensures !Truthy(seed.url) ==>
        created == old(created) && invalidName == old(invalidName) && invalidUrl == old(invalidUrl) &&
        accepted == old(accepted) && rejected == old(rejected) && errors == old(errors)
      ensures Truthy(seed.url) ==>
        var rec := Converted(parse, schools, seed);
        errors == old(errors) + ConversionLog(parse, seed) &&
        (IsAccepted(rec) ==>
          created == old(created) + 1 && accepted == old(accepted) + [rec] &&
          rejected == old(rejected) &&
          invalidName == old(invalidName) && invalidUrl == old(invalidUrl)) &&
        (!IsAccepted(rec) ==>
          created == old(created) && accepted == old(accepted) &&
          rejected == old(rejected) + [rec] &&
          invalidName == old(invalidName) + (if Truthy(rec.entityName) then 0 else 1) &&
          invalidUrl == old(invalidUrl) + (if Truthy(rec.uri) then 0 else 1))
    {
      checked := checked + 1;
      if seed.url.Some? && seed.url.value != "" {
        var rec, log := Transform(parse, schools, seed);
        Route(rec, log);
      } else {
        skipped := skipped + 1;
      }
    }

    /** The handler's body after `transform` (app.js:83-96): the record goes
        to exactly one output, and a rejected one is counted under every
        field that made it fail. */
    method Route(rec: VeidemannSeed, log: seq<Diagnostic>)
      requires checked == skipped + |accepted| + |rejected| + 1
      requires created == |accepted|
      requires invalidName <= |rejected| && invalidUrl <= |rejected| &&
        |rejected| <= invalidName + invalidUrl
      requires forall i | 0 <= i < |accepted| :: IsAccepted(accepted[i])
      requires forall i | 0 <= i < |rejected| :: !IsAccepted(rejected[i])
      modifies this
      ensures Valid()
      ensures checked == old(checked) && skipped == old(skipped)
      ensures errors == old(errors) + log
      ensures IsAccepted(rec) ==>
        created == old(created) + 1 && accepted == old(accepted) + [rec] &&
        rejected == old(rejected) &&
        invalidName == old(invalidName) && invalidUrl == old(invalidUrl)
      ensures !IsAccepted(rec) ==>
        created == old(created) && accepted == old(accepted) &&
        rejected == old(rejected) + [rec] &&
        invalidName == old(invalidName) + (if Truthy(rec.entityName) then 0 else 1) &&
        invalidUrl == old(invalidUrl) + (if Truthy(rec.uri) then 0 else 1)
    {
      errors := errors + log;
      if rec.entityName.Some? && rec.entityName.value != "" && rec.uri.Some? && rec.uri.value != "" {
        created := created + 1;
        accepted := accepted + [rec];
      } else {
        if rec.entityName.None? || rec.entityName.value == "" {
          invalidName := invalidName + 1;
        }
        if rec.uri.None? || rec.uri.value == "" {
          invalidUrl := invalidUrl + 1;
        }
        rejected := rejected + [rec];
      }
    }
  }
}
