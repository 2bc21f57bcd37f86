# heritrix-to-veidemann: a Dafny model of the seed converter

`app.js` reads a JSON dump of legacy Heritrix seeds and turns each record
into a Veidemann entity-and-seed record for `veidemannctl`. A record whose
url is a non-empty string is converted. The result goes to the output when both its entity
name and its URI are truthy, and to the file of failed seeds otherwise.
The counters of checked, created, invalid-name and invalid-url seeds are
updated along the way. Deriving the name and deriving the URI can each
fail, and each failed derivation writes at most one line to the error-URL
file, so a record gets at most two lines. `getUri` writes nothing when its
retry with `http://` throws (app.js:323-325). The line `getUri` writes
for a rejected retry holds the url and the retried parse result
(app.js:321); the line for a rejected first parse holds only that parse
result, without the url (app.js:330).

This project models that core:

- `UrlParsing` models `getUri` and `getEntityName`.
  - `url.parse` is a parameter: each call either throws or returns the
    fields the converter reads.
  - Both functions return their value together with the error-URL lines
    they write, as `Diagnostic` values.
  - It also holds the name derived from a hostname: split on `.`, drop the
    top-level domain, drop a leading `www` label, join with spaces and
    upper-case the first character.
- `Classification` models `getEntityLabel`.
  - The method `EntityLabels` follows the source: eight substring tests in
    a fixed order, then a loop over the school list.
  - It is proved equal to a declarative specification, `EntityLabelsOf`.
    There, every test and every school entry is one row of an ordered rule
    table, and every matching rule adds one `næring` label.
  - For the verifier, the eight tests live in two helper methods:
    `UrlLabels` holds the four url-only tests and `TextLabels` the four that
    also search the description.
- `Profiles` models `hasProfiles` and `getSeedLabel`.
  - Each of the eleven `=== 1` tests of `hasProfiles` is a call of
    `PushWhenSet`, so the method keeps the source's sequence of pushes.
  - `HasProfiles` is proved equal to a filter of the profile-name table by
    the flags, joined with commas.
- `Conversion` models `transform` and the `'data'` handler.
  - The handler is the class `Converter`. Its fields are the four counters,
    the accepted, rejected and error-URL outputs, and the number of url-less
    records skipped (ghost).
  - `Process` handles one record. Its routing half is the method `Route`.
- `Text` models the JavaScript string operations used:
  - `includes`;
  - `split` and `join` on one character;
  - upper-casing the first character.
- `Records` holds the record shapes and JavaScript truthiness.

Two edge cases of the name derivation:

- app.js:167-169 drops a leading `www` label even when no other label is
  left. So host `www.no` gives the empty name, and the seed is rejected
  for its name (`UrlParsing.NameOfBareWwwHost`,
  `Conversion.BareWwwHostRejected`).
- A two-label host `a.b` loses only its top-level domain, so it is named
  `"A"` (`UrlParsing.NameOfTwoLabelHost`).

## Model

| member | source | states |
|---|---|---|
| Text.Contains | app.js:208-265 | `includes` is true exactly when the second string occurs at some index of the first; the empty string occurs in every string |
| Text.Split | app.js:164 | `split` on one character gives at least one piece; no piece holds the separator; joining the pieces with the separator gives back the string; there are two or more pieces exactly when the separator occurs |
| Text.SplitJoin | app.js:164 | splitting undoes joining when no part holds the separator |
| Text.Join | app.js:178-180 | `join`, and an array's `toString`, which joins with commas (app.js:373-374); a spec function whose properties are the lemmas `Text.JoinAvoids`, `Text.JoinHasParts`, `Text.SplitJoin` and `Profiles.ProfileStringSplits` |
| Text.Capitalize | app.js:178-180 | `charAt(0).toUpperCase() + slice(1)` keeps the length, upper-cases the first character and leaves the rest unchanged |
| Text.CapitalizeIdempotent | app.js:178-180 | capitalising twice is capitalising once; the first character of a capitalised string is already upper case |
| Text.UpperChar | app.js:178-180 | `toUpperCase` on one character maps a-z to A-Z and leaves every other character as it is |
| UrlParsing.FirstParse | app.js:307-312 | `getUri`'s guarded first parse: the parse result when the call returns; when it throws, the empty object `{}`, which has no protocol (so the retry follows) and is not complete |
| UrlParsing.Complete | app.js:318 | the four-field test of app.js:318 and app.js:327: protocol, slashes, host and href all truthy; a spec predicate used by `UrlParsing.Uri`, `UrlParsing.UriAndNameReadOneAttempt` and `Conversion.AcceptedIff` |
| UrlParsing.Attempt | app.js:147-160 | the parse attempt both derivations read; when the string as given has no protocol, it is the result of parsing the string with `http://` in front |
| UrlParsing.Uri | app.js:304-333 | the URI is present exactly when the chosen attempt has protocol, slashes, host and href, and then it is that href; at most one error line is written, and one is written exactly when no URI results and some parse returned: the url with the retried parse result when the retry is rejected, the first parse result alone when that one is rejected; a throwing retry writes nothing |
| UrlParsing.UriIgnoresRetryWhenSchemeGiven | app.js:314-332 | the `http://` retry is made only when the first parse has no protocol |
| UrlParsing.HostnameOf | app.js:147-160 | the hostname, when obtained, is never empty |
| UrlParsing.EntityName | app.js:143-183 | no name exactly when no hostname is obtained (the given url has a protocol but no hostname, or the retry throws or lacks protocol, slashes or hostname); then exactly one error line naming the url and the first parse result; otherwise no line, and the name derived from the hostname |
| UrlParsing.UriAndNameReadOneAttempt | app.js:147-160 | `getUri` and `getEntityName` read the same attempt; a first parse with a protocol but no slashes gives a name and no URI |
| UrlParsing.HostLabels | app.js:164-170 | the pop and splice: every kept label is one of the host's dot-separated labels and holds no dot; one or two labels fewer than the split gives |
| UrlParsing.NameOfHost | app.js:162-181 | the name derived from a truthy hostname never holds a dot, and its first character is already upper case; its shape is stated by `UrlParsing.NameOfDotlessHost`, `UrlParsing.HostLabelsDropTldAndWww`, `UrlParsing.NameOfDottedHost` and `UrlParsing.NameOfHostFromLabels` |
| UrlParsing.NameOfDotlessHost | app.js:145-180 | a hostname without a dot gives the one-space placeholder name |
| UrlParsing.HostLabelsDropTldAndWww | app.js:164-170 | the kept labels are the dot-separated labels without the last one, and also without the first one when that one contains `www` |
| UrlParsing.NameOfDottedHost | app.js:162-181 | the name of a dotted host has the length of the joined labels, with only its first character upper-cased |
| UrlParsing.NameWordsAreKeptLabels | app.js:164-178 | for a host without spaces, splitting the name on spaces recovers the kept labels |
| UrlParsing.NameOfHostFromLabels | app.js:162-181 | the name of a joined list of labels, stated from the labels |
| UrlParsing.NameOfWwwHost | app.js:162-181 | `www.kommune-x.no` is named `Kommune-x` |
| UrlParsing.NameOfTwoLabelHost | app.js:162-181 | `a.b` is named `A` |
| UrlParsing.NameOfBareWwwHost | app.js:162-181 | `www.no` is named with the empty string |
| Classification.SchoolRules | app.js:264-271 | one rule per school entry, in list order, matching when the entry's url occurs in the seed's url |
| Classification.RuleLabels | app.js:208-271 | the rule tests add at most one label per rule, all with key `næring` |
| Classification.EntityLabelsOf | app.js:191-276 | the entity labels start with the provenance label, then hold at most one `næring` label per fixed rule and per school entry |
| Classification.EntityLabels | app.js:191-276 | no labels (`undefined`) for a missing url; otherwise exactly the labels of the rule table, in rule order, over the description read as `""` when null |
| Classification.UrlLabels | app.js:208-233 | the blog, avis, kommune and twitter tests append exactly the labels of the four url-only rules |
| Classification.TextLabels | app.js:235-262 | the fylkeskommune, parti, teater and museum tests append exactly the labels of the four rules that also search the description |
| Classification.EntityLabelsParts | app.js:193-271 | the entity labels are the provenance label, then the url-rule labels, then the text-rule labels, then the school labels |
| Classification.RuleLabelsAppend | app.js:208-271 | testing two rule lists one after the other gives the concatenation of their labels |
| Classification.RuleLabelsMembers | app.js:208-271 | a label is present exactly when some matching rule yields it |
| Classification.RuleLabelsInOrder | app.js:208-271 | labels of matching rules appear in rule order |
| Classification.UrlOnlyRulesIgnoreDescription | app.js:208-271 | rules that search only the url give the same labels for every description |
| Classification.DescriptionOnlyMattersForTextRules | app.js:200-271 | two descriptions that agree on the four text rules give the same entity labels |
| Classification.FixedLabelPresent | app.js:208-262 | among the labels of the eight fixed rules, each fixed label is present exactly when its rule matches |
| Classification.FixedEntityLabelPresent | app.js:191-276 | among the entity labels, a fixed rule's label is present exactly when its rule matches, provided no school entry has that label value as its `institusjon`; a matching school entry with such a value adds the label on its own (app.js:264-270) |
| Classification.MunicipalityLabelFromUrlOnly | app.js:221-226 | among the labels of the fixed rules, the `kommune` label is present exactly when the url contains `kommune`, whatever the description |
| Classification.MuseumLabelFromUrlOrDescription | app.js:257-262 | among the labels of the fixed rules, the `museum` label is present exactly when the url or the description contains `museum` |
| Classification.CountyIsAlsoMunicipality | app.js:221-240 | a url containing `fylkeskommune` gets both the `kommune` label and the `fylkeskommune` label, `kommune` first |
| Classification.SchoolLabelsInOrder | app.js:264-271 | labels of matching school entries appear in list order |
| Classification.LabelsAfterProvenance | app.js:193-271 | the rule labels keep their order after the leading provenance label |
| Profiles.PushWhenSet | app.js:337-339 | one test-and-push appends the name exactly when the flag is the number 1 |
| Profiles.HasProfiles | app.js:335-378 | the result is the comma-joined names of the profiles whose flag is `=== 1`, in table order, or `null` when there is none |
| Profiles.ActiveProfilesUnrolled | app.js:336-372 | the filter of the profile table is the source's eleven successive conditional pushes |
| Profiles.SelectedMembers | app.js:337-372 | a name is selected exactly when its flag is set |
| Profiles.ProfileListed | app.js:337-372 | a profile is listed exactly when its own flag is the number 1 |
| Profiles.JoinedProfilesEmpty | app.js:373-377 | the joined string is empty exactly when no profile is listed |
| Profiles.NoProfileWithoutSetFlag | app.js:373-377 | the result is `null` exactly when no flag is the number 1 |
| Profiles.SelectedInOrder | app.js:337-372 | selected names keep the table's order |
| Profiles.ProfilesInOrder | app.js:337-372 | listed profiles appear in the order p1 … p10, p99 |
| Profiles.ProfileStringSplits | app.js:373-374 | splitting the result on commas gives back the listed profiles |
| Profiles.ProfileExample | app.js:335-378 | flags p1, p3 and p99 equal to 1 give `p1,p3,p99`; values 0, 2 or non-numbers select nothing |
| Profiles.SeedLabels | app.js:284-302 | the seed labels are the provenance label, then one `heritrix_profile` label when `hasProfiles` is not `null` |
| Profiles.SeedLabelsShape | app.js:284-302 | one or two seed labels; the first is the provenance label; there are two exactly when some flag is set, and the second holds the comma-joined profiles |
| Conversion.IsAccepted | app.js:83 | the handler's routing test: entity name and URI both truthy; characterised by `Conversion.AcceptedIff` and kept for every output record by `Conversion.Converter.Valid` |
| Conversion.Transform | app.js:124-133 | the converted record and the error lines, both as the specification functions give them |
| Conversion.ConvertedFields | app.js:124-133 | the record keeps the description as read, `null` included; the seed description is empty; both label lists start with the provenance label |
| Conversion.AcceptedIff | app.js:79-98 | a seed is accepted exactly when the parse attempt is complete, has a hostname, and the name derived from it is not empty |
| Conversion.BareWwwHostRejected | app.js:162-181 | a seed on host `www.no` is rejected, with a falsy name |
| Conversion.ConversionLogBound | app.js:124-133 | converting one seed writes at most two error lines, and none for an accepted seed |
| Conversion.Converter.constructor | app.js:73-76 | all counters start at zero and all outputs start empty |
| Conversion.Converter.Process | app.js:79-98 | every record bumps the checked counter; a url-less record changes nothing else; otherwise the error lines are appended, and the record goes to exactly one output with the matching counters bumped; the counter invariant is kept |
| Conversion.Converter.Route | app.js:83-96 | an accepted record is appended to the output and counted as created; a rejected one is appended to the failed output and counted as an invalid name and/or an invalid url, for each falsy field |

## Left out

- `url.parse` is not modelled. It is the parameter `parse`, and only the fields the converter reads are kept (`protocol`, `slashes`, `host`, `hostname`, `href`).
- The streams and file handling (app.js:54-69) are not modelled. Records arrive one at a time through `Converter.Process`, and outputs are sequences of records and of `Diagnostic` values. `JSON.stringify` and the exact text of error lines are not modelled.
- The `'end'` handler (app.js:100-115) is not modelled. It closes the streams and prints the counters and the elapsed time; the clock is I/O.
- `console.error` (app.js:156, 311, 324) is left out; it only writes to the console.
- The school and university list (app.js:59) is loaded from a file in the source. Here it is the `schools` parameter.
- UrlParsing.EntityName: requires the first `url.parse` not to throw. In the source that call (app.js:144) has no `try`, so an exception would escape the handler.
- Classification.EntityLabels: a `null` url is treated like a missing one and gives no labels. In the source the guard at app.js:206 lets `null` through, and `includes` at app.js:208 would then throw. The handler calls it only with a truthy url, so the converter never sees the difference.
- Classification.EntityLabels: the source writes `""` back into `seed.description` when it is nullish (app.js:200-202). The model uses a local instead. `transform` reads the description before that write, so the record is the same.
- `null` and a missing field are both `None`. The converter's tests treat them alike (truthiness, and `== null` at app.js:200), apart from the guard above.
- Conversion.Transform: `entityDescription` merges a `null` description with a missing one. The source copies the field as it is (app.js:128), and `JSON.stringify` (app.js:85, 95) then writes `"entityDescription":null` for a `null` description but leaves the key out for a missing one.
- Text.UpperChar: upper-cases only ASCII `a`-`z`. JavaScript's `toUpperCase` also maps other letters, and may change the string's length for some of them.
- Strings are sequences of characters. JavaScript's UTF-16 code units and surrogate pairs are not modelled.
- Profile flags are `Number(n)` for integral JSON numbers and `NotNumber` for everything else. Only the number 1 is `=== 1`, and the model keeps that distinction.
- The `deact` field is carried in `Seed` but never read, as in the source.
- Counters are unbounded naturals. JavaScript numbers stay exact up to 2^53 records.
