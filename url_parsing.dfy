/** URL handling of the converter: `getUri` (app.js:304-333) and
    `getEntityName` (app.js:143-183). Node's legacy `url.parse` is not
    modelled: both take it as a parameter `parse`, whose result is either an
    exception or a record of the optional fields they read. What they write
    to the error-URL stream is returned beside their value, one
    `Diagnostic` per line. */
module UrlParsing {
  import opened Wrappers
  import opened Records
  import opened Text

  /** The fields of a `url.parse` result that the converter reads; `None`
      is `null`, and `slashes` is `false` where `url.parse` leaves it `null`. */
  datatype ParseResult = ParseResult(
    protocol: Option<string>,
    slashes: bool,
    host: Option<string>,
    hostname: Option<string>,
    href: Option<string>)

  /** One call of `url.parse`: it throws, or it returns a result. */
  datatype ParseAttempt = Threw | Parsed(result: ParseResult)

  type Parser = string -> ParseAttempt

  /** The object literal `{}` that stands in for a parse that threw. */
  const EmptyParse := ParseResult(None, false, None, None, None)

  const HttpPrefix := "http://"

  /** One line written to the error-URL stream. */
  datatype Diagnostic =
    | NoHostname(url: string, parsed: ParseResult)     // app.js:173-174
    | RetryRejected(url: string, retried: ParseResult) // app.js:321
    | ParseRejected(parsed: ParseResult)               // app.js:330

  /** A value together with the error-URL lines written while computing it. */
  datatype Logged<T> = Logged(value: T, log: seq<Diagnostic>)

  /** A parse result `getUri` accepts: protocol, slashes, host and href all
      present. */
  predicate Complete(p: ParseResult) {
    Truthy(p.protocol) && p.slashes && Truthy(p.host) && Truthy(p.href)
  }

  /** `getUri`'s first attempt: the string as given, or `{}` if that throws. */
  function FirstParse(parse: Parser, url: string): (first: ParseResult)
    ensures parse(url).Parsed? ==> first == parse(url).result
    ensures parse(url).Threw? ==> first == EmptyParse && !Truthy(first.protocol) && !Complete(first)
  {
    match parse(url)
    case Threw => EmptyParse
    case Parsed(p) => p
  }

  /** The parse attempt that both derivations read: the string as given when
      that yields a protocol, else the string with `http://` in front, unless
      that throws. */
  function Attempt(parse: Parser, url: string): (a: Option<ParseResult>)
    ensures a.Some? && !Truthy(FirstParse(parse, url).protocol) ==>
      parse(HttpPrefix + url) == Parsed(a.value)
  {
    var first := FirstParse(parse, url);
    if Truthy(first.protocol) then Some(first)
    else match parse(HttpPrefix + url)
      case Threw => None
      case Parsed(p) => Some(p)
  }

  /** `getUri`: the normalised URL, or `None` (`undefined`). */
  function Uri(parse: Parser, url: string): (r: Logged<Option<string>>)
    ensures r.value.Some? ==> r.value.value != ""
    ensures Truthy(FirstParse(parse, url).protocol) ==>
      (r.value.Some? <==> Complete(FirstParse(parse, url))) &&
      (r.value.Some? ==> r.value == FirstParse(parse, url).href)
    ensures !Truthy(FirstParse(parse, url).protocol) ==>
      (r.value.Some? <==>
        parse(HttpPrefix + url).Parsed? && Complete(parse(HttpPrefix + url).result)) &&
      (r.value.Some? ==> r.value == parse(HttpPrefix + url).result.href)
    ensures |r.log| <= 1
    ensures r.log != [] <==>
      r.value.None? &&
      (Truthy(FirstParse(parse, url).protocol) || parse(HttpPrefix + url).Parsed?)
    ensures r.log != [] ==>
      r.log == if Truthy(FirstParse(parse, url).protocol) then [ParseRejected(FirstParse(parse, url))]
               else [RetryRejected(url, parse(HttpPrefix + url).result)]
  {
    var first := FirstParse(parse, url);
    if !Truthy(first.protocol) then
      match parse(HttpPrefix + url)
      case Threw => Logged(None, [])
      case Parsed(retried) =>
        if Complete(retried) then Logged(Some(retried.href.value), [])
        else Logged(None, [RetryRejected(url, retried)])
    else if Complete(first) then Logged(Some(first.href.value), [])
    else Logged(None, [ParseRejected(first)])
  }

  /** The retry with `http://` is made only when the first parse has no
      protocol: two parsers that agree on the string as given then give the
      same URI and write the same lines, whatever they do with the retry. */
  lemma UriIgnoresRetryWhenSchemeGiven(parse: Parser, other: Parser, url: string)
    requires parse(url) == other(url)
    requires Truthy(FirstParse(parse, url).protocol)
    ensures Uri(parse, url) == Uri(other, url)
  {
  }

  /** The `hostname` variable of `getEntityName` once both attempts are
      over: `None` where the source leaves it falsy. */
  function HostnameOf(parse: Parser, url: string): (h: Option<string>)
    requires parse(url).Parsed?
    ensures h.Some? ==> h.value != ""
  {
    var first := parse(url).result;
    if !Truthy(first.protocol) then
      match parse(HttpPrefix + url)
      case Threw => None
      case Parsed(p) =>
        if Truthy(p.protocol) && p.slashes && Truthy(p.hostname) then p.hostname else None
    else if Truthy(first.hostname) then first.hostname
    else None
  }

  /** The labels of a dotted hostname that make up the name: split on `.`,
      pop the last one (the top-level domain), and splice out the first if
      it contains `www`. */
  function HostLabels(h: string): (kept: seq<string>)
    requires '.' in h
    ensures forall i | 0 <= i < |kept| :: kept[i] in Split(h, '.') && '.' !in kept[i]
    ensures |Split(h, '.')| - 2 <= |kept| < |Split(h, '.')|
  {
    var labels := Split(h, '.');
    if |labels| > 1 then
      var popped := labels[..|labels| - 1];
      if Contains(popped[0], "www") then popped[1..] else popped
    else labels
  }

  /** The name `getEntityName` derives from a truthy hostname. `name` starts
      as `" "` and is kept for a dotless hostname; otherwise it becomes the
      label array, and for an array both branches of app.js:177-181 give
      `join(' ')` (an array of at most one element has the same `toString`). */
  function NameOfHost(h: string): (name: string)
    requires h != ""
    ensures '.' !in name
    ensures name != "" ==> UpperChar(name[0]) == name[0]
  {
    if !Contains(h, ".") then Capitalize(" ")
    else
      ContainsChar(h, '.');
      var kept := HostLabels(h);
      JoinAvoids(kept, " ", '.');
      CapitalizeIdempotent(Join(kept, " "));
      Capitalize(Join(kept, " "))
  }

  /** `getEntityName`: the entity name, or `None` (`undefined`) together with
      one error line when no hostname is obtained. The first parse is not
      guarded by `try` in the source, so it is required not to throw. */
  function EntityName(parse: Parser, url: string): (r: Logged<Option<string>>)
    requires parse(url).Parsed?
    ensures r.value.None? <==>
      var first := parse(url).result;
      var retry := parse(HttpPrefix + url);
      (Truthy(first.protocol) && !Truthy(first.hostname)) ||
      (!Truthy(first.protocol) &&
        (retry.Threw? ||
         !Truthy(retry.result.protocol) || !retry.result.slashes || !Truthy(retry.result.hostname)))
    ensures r.value.None? ==> r.log == [NoHostname(url, parse(url).result)]
    ensures r.value.Some? ==>
      r.log == [] && r.value.value == NameOfHost(HostnameOf(parse, url).value)
  {
    var hostname := HostnameOf(parse, url);
    if hostname.None? then Logged(None, [NoHostname(url, parse(url).result)])
    else Logged(Some(NameOfHost(hostname.value)), [])
  }

  /** `getUri` and `getEntityName` read the same parse attempt: the URI is
      that attempt's `href` when it is complete, and the name is defined when
      that attempt has a hostname, a protocol and, for the retried string,
      slashes. A first parse with a protocol but no slashes (`mailto:`) thus
      gives a name but no URI. */
  lemma UriAndNameReadOneAttempt(parse: Parser, url: string)
    requires parse(url).Parsed?
    ensures var a := Attempt(parse, url);
      (Uri(parse, url).value.Some? <==> a.Some? && Complete(a.value)) &&
      (Uri(parse, url).value.Some? ==> Uri(parse, url).value == a.value.href)
    ensures var a := Attempt(parse, url);
      EntityName(parse, url).value.Some? <==>
        a.Some? && Truthy(a.value.protocol) && Truthy(a.value.hostname) &&
        (Truthy(parse(url).result.protocol) || a.value.slashes)
    ensures EntityName(parse, url).value.Some? ==>
      HostnameOf(parse, url) == Attempt(parse, url).value.hostname
  {
    assert FirstParse(parse, url) == parse(url).result;
  }

  /** A dotless hostname yields the one-space placeholder name. */
  lemma NameOfDotlessHost(h: string)
    requires h != "" && '.' !in h
    ensures NameOfHost(h) == " "
  {
    ContainsChar(h, '.');
  }

  /** The labels kept for the name are the hostname's labels without the
      top-level domain, and without the first label when it contains `www`. */
  lemma HostLabelsDropTldAndWww(h: string)
    requires '.' in h
    ensures var labels := Split(h, '.');
      |labels| >= 2 &&
      if Contains(labels[0], "www") then HostLabels(h) == labels[1..|labels| - 1]
      else HostLabels(h) == labels[..|labels| - 1]
  {
  }

  /** The name of a dotted hostname is its kept labels joined by single
      spaces with only the first character upper-cased. */
  lemma NameOfDottedHost(h: string)
    requires '.' in h
    ensures var joined := Join(HostLabels(h), " ");
      var name := NameOfHost(h);
      |name| == |joined| &&
      (joined != "" ==> name[0] == UpperChar(joined[0]) && name[1..] == joined[1..])
  {
    ContainsChar(h, '.');
  }

  /** For a hostname without spaces, the words of the name (before
      upper-casing) are exactly the kept labels. */
  lemma NameWordsAreKeptLabels(h: string)
    requires '.' in h && ' ' !in h
    requires HostLabels(h) != []
    ensures Split(Join(HostLabels(h), " "), ' ') == HostLabels(h)
  {
    var labels := Split(h, '.');
    var kept := HostLabels(h);
    forall i | 0 <= i < |kept|
      ensures ' ' !in kept[i]
    {
      assert kept[i] in labels;
      LabelWithin(h, kept[i], ' ');
    }
    SplitJoin(kept, ' ');
  }

  /** A label of a hostname holds only characters of the hostname. */
  lemma LabelWithin(h: string, part: string, c: char)
    requires part in Split(h, '.')
    requires c !in h
    ensures c !in part
  {
    var labels := Split(h, '.');
    var i :| 0 <= i < |labels| && labels[i] == part;
    JoinHasParts(labels, ".", i, c);
  }

  /** `www.kommune-x.no` is named `Kommune-x`. */
  lemma NameOfWwwHost()
    ensures NameOfHost("www.kommune-x.no") == "Kommune-x"
  {
    var labels := ["www", "kommune-x", "no"];
    assert Join(labels, ".") == "www.kommune-x.no" by {
      assert labels[1..][1..] == ["no"];
    }
    assert Contains(labels[0], "www");
    NameOfHostFromLabels("www.kommune-x.no", labels, ["kommune-x"]);
    CapitalizedKommune();
  }

  lemma CapitalizedKommune()
    ensures Capitalize(Join(["kommune-x"], " ")) == "Kommune-x"
  {
    var tail := "ommune-x";
    assert "kommune-x" == ['k'] + tail;
    assert "Kommune-x" == ['K'] + tail;
  }

  /** `a.b` is named `A`: only the top-level domain is dropped. */
  lemma NameOfTwoLabelHost()
    ensures NameOfHost("a.b") == "A"
  {
    var labels := ["a", "b"];
    assert Join(labels, ".") == "a.b";
    assert !Contains(labels[0], "www");
    NameOfHostFromLabels("a.b", labels, ["a"]);
  }

  /** `www.no` gets the empty name: both of its labels are dropped. */
  lemma NameOfBareWwwHost()
    ensures NameOfHost("www.no") == ""
  {
    var labels := ["www", "no"];
    assert Join(labels, ".") == "www.no";
    assert Contains(labels[0], "www");
    NameOfHostFromLabels("www.no", labels, []);
  }

  /** Evaluates `NameOfHost` on a hostname given as its labels. */
  lemma NameOfHostFromLabels(h: string, labels: seq<string>, kept: seq<string>)
    requires |labels| >= 2 && forall i | 0 <= i < |labels| :: '.' !in labels[i]
    requires h == Join(labels, ".")
    requires kept ==
      if Contains(labels[0], "www") then labels[1..|labels| - 1] else labels[..|labels| - 1]
    ensures h != "" && NameOfHost(h) == Capitalize(Join(kept, " "))
  {
    assert h == Join(labels, ['.']);
    SplitJoin(labels, '.');
    assert Split(h, '.') == labels;
    assert '.' in h;
    assert HostLabels(h) == kept;
    ContainsChar(h, '.');
  }
}
