/**
 * The service details page's helpers: the page URL, the `?<type>=<name>`
 * search that selects an Istio object, the lookup of that object's
 * validation, and the pass that adds each DestinationRule's format check to
 * the validations fetched from the backend.
 */
module ServiceDetails {
  import opened Wrappers
  import opened JsString
  import opened IstioObjects

  /** `{type?, name?}`: the object a search selects (`type` is a reserved word here, hence `objectType`). */
  datatype ParsedSearch = ParsedSearch(objectType: Option<string>, name: Option<string>)

  /** `Validations`: object type, then object name, to that object's validation. */
  type ValidationMap = map<string, map<string, ObjectValidation>>

  /** The object type under which DestinationRule validations are filed. */
  const DESTINATION_RULE: string := "destinationrule"

  /** JavaScript truthiness of an optional string: present and not empty. */
  predicate Truthy(s: Option<string>) {
    s.Some? && s.value != ""
  }

  // ---------------------------------------------------------------------------
  // The page URL

  /** The path of the page without a query. */
  function ServiceBase(namespace: string, service: string): string {
    "/namespaces/" + namespace + "/services/" + service
  }

  /**
   * `servicePageURL`: the service's path, followed by `?list=<type>s` when a
   * search with a type is given.
   */
  function ServicePageURL(namespace: string, service: string, parsedSearch: Option<ParsedSearch>): (url: string)
    ensures StartsWith(url, ServiceBase(namespace, service))
    ensures !(parsedSearch.Some? && Truthy(parsedSearch.value.objectType)) ==> url == ServiceBase(namespace, service)
    ensures parsedSearch.Some? && Truthy(parsedSearch.value.objectType)
            ==> url[|ServiceBase(namespace, service)|..] == "?list=" + parsedSearch.value.objectType.value + "s"
  {
    var base := ServiceBase(namespace, service);
    var url := if parsedSearch.Some? && Truthy(parsedSearch.value.objectType)
               then base + "?list=" + parsedSearch.value.objectType.value + "s"
               else base;
    assert url[..|base|] == base;
    url
  }

  /** When neither path segment holds a `?`, the URL has a query exactly when the search names a type. */
  lemma ServicePageURLQuery(namespace: string, service: string, parsedSearch: Option<ParsedSearch>)
    requires '?' !in namespace && '?' !in service
    ensures var url := ServicePageURL(namespace, service, parsedSearch);
            '?' in url <==> parsedSearch.Some? && Truthy(parsedSearch.value.objectType)
  {
    var base := ServiceBase(namespace, service);
    var url := ServicePageURL(namespace, service, parsedSearch);
    assert '?' !in base by {
      forall q | 0 <= q < |base| ensures base[q] != '?' {
        if q < 12 {
          assert base[q] == "/namespaces/"[q];
        } else if q < 12 + |namespace| {
          assert base[q] == namespace[q - 12];
        } else if q < 22 + |namespace| {
          assert base[q] == "/services/"[q - 12 - |namespace|];
        } else {
          assert base[q] == service[q - 22 - |namespace|];
        }
      }
    }
    if parsedSearch.Some? && Truthy(parsedSearch.value.objectType) {
      assert url[|base|] == '?';
    } else {
      assert url == base;
    }
  }

  // ---------------------------------------------------------------------------
  // The search

  /** The first parameter of a search, split at `=`: `?destinationrule=reviews&x=y` gives `destinationrule`, `reviews`. */
  function FirstParams(search: string): (r: seq<string>)
    ensures |r| >= 1
  {
    Split(ReplaceFirst(Split(search, '&')[0], '?'), '=')
  }

  /** What `parseSearch` builds before returning: the type and name of the first parameter of a non-empty search. */
  function ParsedFirstParam(search: string): (r: ParsedSearch)
    ensures search == "" <==> r.objectType.None?
    ensures r.name.Some? ==> search != ""
  {
    if search == "" then ParsedSearch(None, None)
    else
      var firstParams := FirstParams(search);
      ParsedSearch(Some(firstParams[0]), At(firstParams, 1))
  }

  /** `parseSearch` as written: the parse is computed and discarded, and `{}` is returned. */
  function ParseSearch(search: string): (r: ParsedSearch)
    ensures r.objectType.None? && r.name.None?
  {
    var parsed := ParsedFirstParam(search);
    ParsedSearch(None, None)
  }

  /** `parseSearch` as its comment describes it: the parse of the first parameter is returned. */
  function ParseSearchIntended(search: string): (r: ParsedSearch)
    ensures search == "" <==> r == ParsedSearch(None, None)
  {
    ParsedFirstParam(search)
  }

  /** Splitting a string without the separator gives the string itself. */
  lemma SplitWhole(s: string, sep: char)
    requires sep !in s
    ensures Split(s, sep) == [s]
  {
    IndexOfMiss(s, sep, 0);
  }

  /** Splitting at a first separator gives the piece before it, then the split of the rest. */
  lemma SplitAt(a: string, b: string, sep: char)
    requires sep !in a
    ensures Split(a + [sep] + b, sep) == [a] + Split(b, sep)
  {
    var s := a + [sep] + b;
    assert s[|a|] == sep;
    forall j | 0 <= j < |a| ensures s[j] != sep {
      assert s[j] == a[j];
    }
    IndexOfIs(s, sep, 0, |a|);
    assert s[..|a|] == a;
    assert s[|a| + 1..] == b;
  }

  /** Removing the first `c` from a string that starts with `c` leaves the rest. */
  lemma ReplaceFirstHead(c: char, s: string)
    ensures ReplaceFirst([c] + s, c) == s
  {
    IndexOfIs([c] + s, c, 0, 0);
    assert ([c] + s)[1..] == s;
  }

  /** A search `?<type>=<name>` parses back to its type and name. */
  lemma ParseSearchIntendedRoundTrip(objectType: string, name: string)
    requires '&' !in objectType && '=' !in objectType
    requires '&' !in name && '=' !in name
    ensures ParseSearchIntended("?" + objectType + "=" + name) == ParsedSearch(Some(objectType), Some(name))
  {
    FirstParamsOf(objectType, name);
  }

  /** The first parameters of `?<type>=<name>` are the type and the name. */
  lemma FirstParamsOf(objectType: string, name: string)
    requires '&' !in objectType && '=' !in objectType
    requires '&' !in name && '=' !in name
    ensures FirstParams("?" + objectType + "=" + name) == [objectType, name]
  {
    var body := objectType + ['='] + name;
    var search := ['?'] + body;
    assert "?" + objectType + "=" + name == search;
    NoAmpersand(objectType, name);
    SplitWhole(search, '&');
    ReplaceFirstHead('?', body);
    SplitAt(objectType, name, '=');
    SplitWhole(name, '=');
  }

  /** `?<type>=<name>` has no `&` when neither part has one. */
  lemma NoAmpersand(objectType: string, name: string)
    requires '&' !in objectType && '&' !in name
    ensures '&' !in ['?'] + (objectType + ['='] + name)
  {
    var search := ['?'] + (objectType + ['='] + name);
    forall q | 0 <= q < |search| ensures search[q] != '&' {
      if 1 <= q < 1 + |objectType| {
        assert search[q] == objectType[q - 1];
      } else if q > 1 + |objectType| {
        assert search[q] == name[q - 2 - |objectType|];
      }
    }
  }

  /** As written, every search `?<type>=<name>` parses to nothing, where the intended parse finds the object. */
  lemma ParseSearchDiscards(objectType: string, name: string)
    requires '&' !in objectType && '=' !in objectType
    requires '&' !in name && '=' !in name
    ensures var search := "?" + objectType + "=" + name;
            && ParseSearch(search) == ParsedSearch(None, None)
            && ParseSearchIntended(search) == ParsedSearch(Some(objectType), Some(name))
            && ParseSearch(search) != ParseSearchIntended(search)
  {
    ParseSearchIntendedRoundTrip(objectType, name);
  }

  // ---------------------------------------------------------------------------
  // The validation a search selects

  /**
   * `searchValidation`: `validations[type][name]` when the search names a
   * type and a name and that entry exists; otherwise `{}` (`None`).
   */
  function SearchValidation(validations: ValidationMap, parsedSearch: ParsedSearch): (r: Option<ObjectValidation>)
    ensures r.Some? <==>
            && Truthy(parsedSearch.objectType) && Truthy(parsedSearch.name)
            && parsedSearch.objectType.value in validations
            && parsedSearch.name.value in validations[parsedSearch.objectType.value]
    ensures r.Some? ==> r.value == validations[parsedSearch.objectType.value][parsedSearch.name.value]
  {
    if Truthy(parsedSearch.objectType) && Truthy(parsedSearch.name)
       && parsedSearch.objectType.value in validations
       && parsedSearch.name.value in validations[parsedSearch.objectType.value]
    then Some(validations[parsedSearch.objectType.value][parsedSearch.name.value])
    else None
  }

  /** As written, the page never finds a validation for its search, nor puts a list in its URL. */
  lemma SearchAsWrittenFindsNothing(validations: ValidationMap, search: string, namespace: string, service: string)
    ensures SearchValidation(validations, ParseSearch(search)) == None
    ensures ServicePageURL(namespace, service, Some(ParseSearch(search))) == ServiceBase(namespace, service)
  {
  }

  /** With the intended parse, the search `?<type>=<name>` finds that object's validation when it exists. */
  lemma SearchIntendedFinds(validations: ValidationMap, objectType: string, name: string)
    requires objectType != "" && '&' !in objectType && '=' !in objectType
    requires name != "" && '&' !in name && '=' !in name
    ensures var r := SearchValidation(validations, ParseSearchIntended("?" + objectType + "=" + name));
            && (r.Some? <==> objectType in validations && name in validations[objectType])
            && (r.Some? ==> r.value == validations[objectType][name])
  {
    ParseSearchIntendedRoundTrip(objectType, name);
  }

  // ---------------------------------------------------------------------------
  // Adding the DestinationRules' format checks

  /** `checks.some(check => check.message === message)`. */
  predicate HasMessage(checks: seq<ValidationCheck>, message: string) {
    exists i :: 0 <= i < |checks| && checks[i].message == message
  }

  /**
   * One rule's turn on its object's validation: the format check is pushed,
   * and the object marked invalid, when there is a check whose message is
   * not reported yet; otherwise nothing changes.
   */
  function WithFormatCheck(ov: ObjectValidation, check: Option<ValidationCheck>): (r: ObjectValidation)
    ensures r.name == ov.name && r.objectType == ov.objectType
    ensures |ov.checks| <= |r.checks| && r.checks[..|ov.checks|] == ov.checks
    ensures r.valid ==> ov.valid
    ensures r != ov <==> check.Some? && !HasMessage(ov.checks, check.value.message)
    ensures r != ov ==> r.checks == ov.checks + [check.value] && !r.valid
    ensures check.Some? ==> HasMessage(r.checks, check.value.message)
  {
    if check.Some? && !HasMessage(ov.checks, check.value.message) then
      var r := ov.(checks := ov.checks + [check.value], valid := false);
      assert r.checks[|ov.checks|] == check.value;
      assert r.checks[..|ov.checks|] == ov.checks;
      r
    else ov
  }

  /**
   * Whether a rule's turn throws a TypeError: `validations['destinationrule']`
   * is undefined, so indexing it by the rule's name throws; or the rule has a
   * check and no validation of its own, so reading `.checks` throws. A rule
   * without a check needs no validation: the `!== null` test comes first.
   */
  predicate TurnThrows(validations: ValidationMap, rule: DestinationRule,
                       formatValidation: DestinationRule -> Option<ValidationCheck>) {
    || DESTINATION_RULE !in validations
    || (formatValidation(rule).Some? && rule.metadata.name !in validations[DESTINATION_RULE])
  }

  /**
   * No turn of the pass throws: the `destinationrule` validations exist when
   * there is a rule, and every rule with a check has its validation there.
   */
  predicate Registered(validations: ValidationMap, rules: seq<DestinationRule>,
                       formatValidation: DestinationRule -> Option<ValidationCheck>) {
    && (|rules| > 0 ==> DESTINATION_RULE in validations)
    && forall k :: 0 <= k < |rules| && formatValidation(rules[k]).Some? ==>
         rules[k].metadata.name in validations[DESTINATION_RULE]
  }

  /** The index of the first rule whose turn throws, or the number of rules when none does. */
  function FirstThrow(validations: ValidationMap, rules: seq<DestinationRule>,
                      formatValidation: DestinationRule -> Option<ValidationCheck>): (k: nat)
    ensures k <= |rules|
    ensures forall j :: 0 <= j < k ==> !TurnThrows(validations, rules[j], formatValidation)
    ensures k < |rules| ==> TurnThrows(validations, rules[k], formatValidation)
    ensures Registered(validations, rules[..k], formatValidation)
    ensures k == |rules| <==> Registered(validations, rules, formatValidation)
    decreases |rules|
  {
    if |rules| == 0 then 0
    else if TurnThrows(validations, rules[0], formatValidation) then 0
    else
      var k := 1 + FirstThrow(validations, rules[1..], formatValidation);
      assert forall j :: 1 <= j < |rules| ==> rules[1..][j - 1] == rules[j];
      assert forall j :: 0 <= j < k ==> rules[..k][j] == rules[j];
      k
  }

  /**
   * The validations once one rule has had its turn. A rule without a check
   * may have no validation of its own: `objectValidations` is then undefined
   * and never read.
   */
  function FormatChecked(validations: ValidationMap, rule: DestinationRule,
                         formatValidation: DestinationRule -> Option<ValidationCheck>): (r: ValidationMap)
    requires !TurnThrows(validations, rule, formatValidation)
    ensures DESTINATION_RULE in r && r == validations[DESTINATION_RULE := r[DESTINATION_RULE]]
    ensures r[DESTINATION_RULE].Keys == validations[DESTINATION_RULE].Keys
  {
    var byName := validations[DESTINATION_RULE];
    var name := rule.metadata.name;
    if name in byName then
      validations[DESTINATION_RULE := byName[name := WithFormatCheck(byName[name], formatValidation(rule))]]
    else
      assert validations[DESTINATION_RULE := byName] == validations;
      validations
  }

  /** The validations once every rule, in order, has had its turn. */
  function FormatValidated(validations: ValidationMap, rules: seq<DestinationRule>,
                           formatValidation: DestinationRule -> Option<ValidationCheck>): (r: ValidationMap)
    requires Registered(validations, rules, formatValidation)
    ensures DESTINATION_RULE in validations ==>
              && DESTINATION_RULE in r && r == validations[DESTINATION_RULE := r[DESTINATION_RULE]]
              && r[DESTINATION_RULE].Keys == validations[DESTINATION_RULE].Keys
    ensures DESTINATION_RULE !in validations ==> r == validations
    decreases |rules|
  {
    if |rules| == 0 then validations
    else
      var next := FormatChecked(validations, rules[0], formatValidation);
      assert forall k :: 0 <= k < |rules| - 1 ==> rules[1..][k] == rules[k + 1];
      FormatValidated(next, rules[1..], formatValidation)
  }

  /** One turn of the pass, seen from the rule at `i`. */
  lemma FormatValidatedStep(validations: ValidationMap, rules: seq<DestinationRule>, i: nat,
                            formatValidation: DestinationRule -> Option<ValidationCheck>)
    requires i < |rules| && Registered(validations, rules[i..], formatValidation)
    ensures rules[i..][0] == rules[i] && !TurnThrows(validations, rules[i], formatValidation)
    ensures Registered(FormatChecked(validations, rules[i], formatValidation), rules[i + 1..], formatValidation)
    ensures FormatValidated(validations, rules[i..], formatValidation)
            == FormatValidated(FormatChecked(validations, rules[i], formatValidation), rules[i + 1..], formatValidation)
  {
    assert rules[i..][1..] == rules[i + 1..];
    assert formatValidation(rules[i]).Some? ==> rules[i..][0].metadata.name in validations[DESTINATION_RULE];
  }

  /** A turn whose check is absent or already reported changes nothing. */
  lemma FormatCheckedNoop(validations: ValidationMap, rule: DestinationRule,
                          formatValidation: DestinationRule -> Option<ValidationCheck>)
    requires !TurnThrows(validations, rule, formatValidation)
    requires var check := formatValidation(rule);
             check.Some? ==> HasMessage(validations[DESTINATION_RULE][rule.metadata.name].checks, check.value.message)
    ensures FormatChecked(validations, rule, formatValidation) == validations
  {
    var byName := validations[DESTINATION_RULE];
    if rule.metadata.name in byName {
      assert byName[rule.metadata.name := byName[rule.metadata.name]] == byName;
    }
  }

  /** `b` is `a` with checks possibly appended and `valid` possibly cleared. */
  predicate Extends(a: ObjectValidation, b: ObjectValidation) {
    && b.name == a.name && b.objectType == a.objectType
    && |a.checks| <= |b.checks| && b.checks[..|a.checks|] == a.checks
    && (b.valid ==> a.valid)
  }

  lemma ExtendsTransitive(a: ObjectValidation, b: ObjectValidation, c: ObjectValidation)
    requires Extends(a, b) && Extends(b, c)
    ensures Extends(a, c)
  {
    assert c.checks[..|a.checks|] == c.checks[..|b.checks|][..|a.checks|];
  }

  /** A reported message stays reported when checks are only appended. */
  lemma ExtendsKeepsMessages(a: ObjectValidation, b: ObjectValidation, message: string)
    requires Extends(a, b) && HasMessage(a.checks, message)
    ensures HasMessage(b.checks, message)
  {
    var i :| 0 <= i < |a.checks| && a.checks[i].message == message;
    assert b.checks[i] == b.checks[..|a.checks|][i];
  }

  /**
   * The pass never removes a check and never sets `valid` to true; the
   * validations of other object types are left as they were.
   */
  lemma {:induction false} FormatValidatedGrows(validations: ValidationMap, rules: seq<DestinationRule>,
                                                formatValidation: DestinationRule -> Option<ValidationCheck>,
                                                objectType: string, name: string)
    requires Registered(validations, rules, formatValidation)
    requires objectType in validations && name in validations[objectType]
    ensures var r := FormatValidated(validations, rules, formatValidation);
            && Extends(validations[objectType][name], r[objectType][name])
            && (objectType != DESTINATION_RULE ==> r[objectType] == validations[objectType])
    decreases |rules|
  {
    if |rules| > 0 {
      var next := FormatChecked(validations, rules[0], formatValidation);
      assert forall k :: 0 <= k < |rules| - 1 ==> rules[1..][k] == rules[k + 1];
      FormatValidatedGrows(next, rules[1..], formatValidation, objectType, name);
      ExtendsTransitive(validations[objectType][name], next[objectType][name],
                        FormatValidated(validations, rules, formatValidation)[objectType][name]);
    }
  }

  /** Every rule's format check is reported once the pass is over. */
  predicate Reported(validations: ValidationMap, rules: seq<DestinationRule>,
                     formatValidation: DestinationRule -> Option<ValidationCheck>)
    requires Registered(validations, rules, formatValidation)
  {
    forall k :: 0 <= k < |rules| && formatValidation(rules[k]).Some? ==>
      HasMessage(validations[DESTINATION_RULE][rules[k].metadata.name].checks, formatValidation(rules[k]).value.message)
  }

  lemma {:induction false} FormatValidatedReports(validations: ValidationMap, rules: seq<DestinationRule>,
                                                  formatValidation: DestinationRule -> Option<ValidationCheck>)
    requires Registered(validations, rules, formatValidation)
    ensures Registered(FormatValidated(validations, rules, formatValidation), rules, formatValidation)
    ensures Reported(FormatValidated(validations, rules, formatValidation), rules, formatValidation)
    decreases |rules|
  {
    var r: ValidationMap := FormatValidated(validations, rules, formatValidation);
    if |rules| > 0 {
      var next := FormatChecked(validations, rules[0], formatValidation);
      var rest := rules[1..];
      assert forall k :: 0 <= k < |rest| ==> rest[k] == rules[k + 1];
      FormatValidatedReports(next, rest, formatValidation);
      forall k: int | 0 <= k < |rules| && formatValidation(rules[k]).Some?
        ensures HasMessage(r[DESTINATION_RULE][rules[k].metadata.name].checks, formatValidation(rules[k]).value.message)
      {
        if k == 0 {
          var name := rules[0].metadata.name;
          FormatValidatedGrows(next, rest, formatValidation, DESTINATION_RULE, name);
          ExtendsKeepsMessages(next[DESTINATION_RULE][name], r[DESTINATION_RULE][name],
                               formatValidation(rules[0]).value.message);
        } else {
          assert rules[k] == rest[k - 1];
        }
      }
    }
  }

  /** When every rule's check is already reported, the pass changes nothing. */
  lemma {:induction false} FormatValidatedNoop(validations: ValidationMap, rules: seq<DestinationRule>,
                                               formatValidation: DestinationRule -> Option<ValidationCheck>)
    requires Registered(validations, rules, formatValidation) && Reported(validations, rules, formatValidation)
    ensures FormatValidated(validations, rules, formatValidation) == validations
    decreases |rules|
  {
    if |rules| > 0 {
      FormatCheckedNoop(validations, rules[0], formatValidation);
      var rest := rules[1..];
      assert forall k :: 0 <= k < |rest| ==> rest[k] == rules[k + 1];
      FormatValidatedNoop(validations, rest, formatValidation);
    }
  }

  /** A second pass adds nothing: every check it would add is already reported. */
  lemma FormatValidatedIdempotent(validations: ValidationMap, rules: seq<DestinationRule>,
                                  formatValidation: DestinationRule -> Option<ValidationCheck>)
    requires Registered(validations, rules, formatValidation)
    ensures Registered(FormatValidated(validations, rules, formatValidation), rules, formatValidation)
    ensures var once := FormatValidated(validations, rules, formatValidation);
            FormatValidated(once, rules, formatValidation) == once
  {
    FormatValidatedReports(validations, rules, formatValidation);
    FormatValidatedNoop(FormatValidated(validations, rules, formatValidation), rules, formatValidation);
  }

  /** A validation no rule with a check names is left as it was. */
  lemma {:induction false} FormatValidatedUntouched(validations: ValidationMap, rules: seq<DestinationRule>,
                                                    formatValidation: DestinationRule -> Option<ValidationCheck>,
                                                    name: string)
    requires Registered(validations, rules, formatValidation)
    requires DESTINATION_RULE in validations && name in validations[DESTINATION_RULE]
    requires forall k :: 0 <= k < |rules| && rules[k].metadata.name == name ==> formatValidation(rules[k]).None?
    ensures FormatValidated(validations, rules, formatValidation)[DESTINATION_RULE][name] == validations[DESTINATION_RULE][name]
    decreases |rules|
  {
    if |rules| > 0 {
      var next := FormatChecked(validations, rules[0], formatValidation);
      var rest := rules[1..];
      assert forall k :: 0 <= k < |rest| ==> rest[k] == rules[k + 1];
      FormatValidatedUntouched(next, rest, formatValidation, name);
    }
  }

  /**
   * Rules without a check never throw and never change anything, whether or
   * not they have validations: with no rules at all even the
   * `destinationrule` validations may be missing.
   */
  lemma {:induction false} UncheckedRulesUnchanged(validations: ValidationMap, rules: seq<DestinationRule>,
                                                   formatValidation: DestinationRule -> Option<ValidationCheck>)
    requires |rules| == 0 || DESTINATION_RULE in validations
    requires forall k :: 0 <= k < |rules| ==> formatValidation(rules[k]).None?
    ensures FirstThrow(validations, rules, formatValidation) == |rules|
    ensures FormatValidated(validations, rules, formatValidation) == validations
    decreases |rules|
  {
    if |rules| > 0 {
      var rest := rules[1..];
      assert forall k :: 0 <= k < |rest| ==> rest[k] == rules[k + 1];
      FormatCheckedNoop(validations, rules[0], formatValidation);
      UncheckedRulesUnchanged(validations, rest, formatValidation);
    }
  }

  /** The `validations` object the page keeps: updated in place, and shared with whoever holds it. */
  class Validations {
    var byType: ValidationMap

    constructor(byType: ValidationMap)
      ensures this.byType == byType
    {
      this.byType := byType;
    }
  }

  /**
   * `addFormatValidation`: each DestinationRule, in order, has its format
   * check pushed onto its validation when the check is present and its
   * message not yet reported, which marks the rule invalid; the same
   * `validations` object is returned. A turn that throws a TypeError
   * (`TurnThrows`) ends the pass with `None`, leaving the turns before it done.
   */
  method AddFormatValidation(destinationRules: seq<DestinationRule>, validations: Validations,
                             formatValidation: DestinationRule -> Option<ValidationCheck>)
    returns (r: Option<Validations>)
    modifies validations
    ensures Registered(old(validations.byType), destinationRules, formatValidation) ==>
              && r == Some(validations)
              && validations.byType == FormatValidated(old(validations.byType), destinationRules, formatValidation)
    ensures var k := FirstThrow(old(validations.byType), destinationRules, formatValidation);
            && (r.Some? <==> k == |destinationRules|)
            && (r.Some? ==> r.value == validations)
            && validations.byType == FormatValidated(old(validations.byType), destinationRules[..k], formatValidation)
  {
    ghost var k := FirstThrow(validations.byType, destinationRules, formatValidation);
    ghost var done := destinationRules[..k];
    assert forall j :: 0 <= j < k ==> done[j] == destinationRules[j];
    for i := 0 to |destinationRules|
      invariant i <= k
      invariant DESTINATION_RULE in validations.byType <==> DESTINATION_RULE in old(validations.byType)
      invariant DESTINATION_RULE in old(validations.byType) ==>
                  validations.byType[DESTINATION_RULE].Keys == old(validations.byType)[DESTINATION_RULE].Keys
      invariant Registered(validations.byType, done[i..], formatValidation)
      invariant FormatValidated(validations.byType, done[i..], formatValidation)
                == FormatValidated(old(validations.byType), done, formatValidation)
    {
      var destinationRule := destinationRules[i];
      var check := formatValidation(destinationRule);
      var name := destinationRule.metadata.name;
      if DESTINATION_RULE !in validations.byType || (check.Some? && name !in validations.byType[DESTINATION_RULE]) {
        assert TurnThrows(old(validations.byType), destinationRules[i], formatValidation);
        assert done[i..] == [];
        return None;
      }
      assert i < k;
      assert done[i] == destinationRule;
      FormatValidatedStep(validations.byType, done, i, formatValidation);
      if name in validations.byType[DESTINATION_RULE] {
        var objectValidations := validations.byType[DESTINATION_RULE][name];
        if check.Some? && !HasMessage(objectValidations.checks, check.value.message) {
          objectValidations := objectValidations.(checks := objectValidations.checks + [check.value], valid := false);
          validations.byType := validations.byType[DESTINATION_RULE := validations.byType[DESTINATION_RULE][name := objectValidations]];
        } else {
          FormatCheckedNoop(validations.byType, destinationRule, formatValidation);
        }
      } else {
        FormatCheckedNoop(validations.byType, destinationRule, formatValidation);
      }
    }
    assert k == |destinationRules| && done == destinationRules;
    r := Some(validations);
  }
}
