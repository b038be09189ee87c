/** The multi-source checker's fetch-outcome classifier (`get_status`):
    transport failures, server errors and near-empty 404 pages are `error`;
    any other page is searched, lower-cased, for an "open" phrase and then
    for a "closed" phrase, first match winning. */
module Classifier {
  import opened Types
  import opened Text

  /** The phrases that mean registration is open, in scan order. */
  const OpenPhrases: seq<string> := [
    "zapisy otwarte", "rejestracja otwarta", "zapisy są otwarte",
    "zapisy trwają", "możliwość rejestracji", "rekrutacja otwarta",
    "zapisz się", "dostępne miejsca", "wolne miejsca"
  ]

  /** The phrases that mean registration is closed, in scan order. */
  const ClosedPhrases: seq<string> := [
    "brak miejsc", "zamknięta", "zapisy zamknięte", "brak wolnych miejsc",
    "zapisy zakończone", "rekrutacja zamknięta", "nie ma miejsc",
    "brak miejsca", "zapisy zostały zamknięte"
  ]

  /** Bodies of at most this many characters on a 404 response count as an
      error page; longer ones are classified like any other page. */
  const NotFoundBodyLimit: int := 100

  /** Some phrase of `phrases` at index `k` or later occurs in `text`. */
  function AnyOccursFrom(phrases: seq<string>, text: string, k: nat): (r: bool)
    ensures r <==> exists j :: k <= j < |phrases| && Contains(text, phrases[j])
    decreases |phrases| - k
  {
    if k >= |phrases| then false
    else Contains(text, phrases[k]) || AnyOccursFrom(phrases, text, k + 1)
  }

  /** Some phrase of `phrases` occurs in `text`: one `for phrase in ...:
      if phrase in txt_lower` loop of the source. */
  function AnyOccurs(phrases: seq<string>, text: string): (r: bool)
    ensures r <==> exists k :: 0 <= k < |phrases| && Contains(text, phrases[k])
  {
    AnyOccursFrom(phrases, text, 0)
  }

  /** Classification of already lower-cased page text, as the source scans:
      open phrases strictly before closed ones. */
  function ClassifyLowered(text: string): (r: Status)
    ensures r != Error
    ensures r == Open <==> AnyOccurs(OpenPhrases, text)
    ensures r == Closed <==> !AnyOccurs(OpenPhrases, text) && AnyOccurs(ClosedPhrases, text)
    ensures r == Unknown <==> !AnyOccurs(OpenPhrases, text) && !AnyOccurs(ClosedPhrases, text)
  {
    if AnyOccurs(OpenPhrases, text) then Open
    else if AnyOccurs(ClosedPhrases, text) then Closed
    else Unknown
  }

  /** The outcome is one the source turns into `error` before reading any
      page text: an exception, a server error, or a near-empty 404 page. */
  predicate FetchFailed(outcome: FetchOutcome) {
    match outcome
    case Response(code, body) => code >= 500 || (code == 404 && |body| <= NotFoundBodyLimit)
    case _ => true
  }

  /** `get_status(url)` given what the fetch produced and Python's
      `str.lower` (passed in; nothing is assumed about it). The reading is
      `error` exactly when the fetch failed; otherwise it is the
      classification of the lower-cased body. */
  function GetStatus(outcome: FetchOutcome, lower: string -> string): (r: Status)
    ensures r == Error <==> FetchFailed(outcome)
    ensures !FetchFailed(outcome) ==> r == ClassifyLowered(lower(outcome.body))
  {
    match outcome
    case Response(code, body) =>
      if code >= 500 then Error
      else if code == 404 && |body| <= NotFoundBodyLimit then Error
      else ClassifyLowered(lower(body))
    case Timeout => Error
    case ConnectionError => Error
    case TooManyRedirects => Error
    case OtherException(_) => Error
  }

  /** A server error is `error` whatever the page says. */
  lemma ServerErrorIgnoresBody(code: int, b1: string, b2: string, lower: string -> string)
    requires code >= 500
    ensures GetStatus(Response(code, b1), lower) == GetStatus(Response(code, b2), lower) == Error
  {
  }

  /** A 404 page longer than the limit is read exactly like a 200 page. */
  lemma LongNotFoundReadLikeOk(body: string, lower: string -> string)
    requires |body| > NotFoundBodyLimit
    ensures GetStatus(Response(404, body), lower) == GetStatus(Response(200, body), lower)
  {
  }

  /** An open phrase decides the reading even when a closed phrase is also on
      the page. */
  lemma OpenPhraseWins(text: string, k: nat, j: nat)
    requires k < |OpenPhrases| && Contains(text, OpenPhrases[k])
    requires j < |ClosedPhrases| && Contains(text, ClosedPhrases[j])
    ensures ClassifyLowered(text) == Open
  {
  }

  /** One entry of an ordered phrase rule list: if `phrase` occurs, the
      reading is `status`. */
  datatype Rule = Rule(phrase: string, status: Status)

  /** Every phrase of `phrases` as a rule yielding `s`, order kept. */
  function Tier(phrases: seq<string>, s: Status): (rules: seq<Rule>)
    ensures |rules| == |phrases|
    ensures forall k :: 0 <= k < |rules| ==> rules[k] == Rule(phrases[k], s)
    decreases |phrases|
  {
    if |phrases| == 0 then []
    else [Rule(phrases[0], s)] + Tier(phrases[1..], s)
  }

  /** The index of the first rule at or after `k` whose phrase occurs in `text`. */
  function FirstRuleFrom(rules: seq<Rule>, text: string, k: nat): (r: Option<nat>)
    ensures r.Some? ==> k <= r.value < |rules| && Contains(text, rules[r.value].phrase)
    ensures r.Some? ==> forall j :: k <= j < r.value ==> !Contains(text, rules[j].phrase)
    ensures r.None? ==> forall j :: k <= j < |rules| ==> !Contains(text, rules[j].phrase)
    decreases |rules| - k
  {
    if k >= |rules| then None
    else if Contains(text, rules[k].phrase) then Some(k)
    else FirstRuleFrom(rules, text, k + 1)
  }

  /** A first-match scan of an ordered rule list: the status of the first rule
      whose phrase occurs, `unknown` when none does. */
  function RuleScan(rules: seq<Rule>, text: string): (r: Status)
    ensures (forall k :: 0 <= k < |rules| ==> !Contains(text, rules[k].phrase)) ==> r == Unknown
    ensures r != Unknown ==> exists k :: 0 <= k < |rules| && Contains(text, rules[k].phrase) && r == rules[k].status
  {
    match FirstRuleFrom(rules, text, 0)
    case Some(k) => rules[k].status
    case None => Unknown
  }

  /** The first rule whose phrase occurs decides the scan, whatever later
      rules say. */
  lemma RuleScanFirstMatch(rules: seq<Rule>, text: string, k: nat)
    requires k < |rules| && Contains(text, rules[k].phrase)
    requires forall j :: 0 <= j < k ==> !Contains(text, rules[j].phrase)
    ensures RuleScan(rules, text) == rules[k].status
  {
    var m := FirstRuleFrom(rules, text, 0).value;
    assert m == k;
  }

  /** Where each phrase of a two-tier rule list sits. */
  lemma TwoTierLayout(first: seq<string>, s1: Status, second: seq<string>, s2: Status)
    ensures var rules := Tier(first, s1) + Tier(second, s2);
            && |rules| == |first| + |second|
            && (forall k :: 0 <= k < |first| ==> rules[k] == Rule(first[k], s1))
            && (forall k :: 0 <= k < |second| ==> rules[|first| + k] == Rule(second[k], s2))
  {
    var a, b := Tier(first, s1), Tier(second, s2);
    var rules := a + b;
    forall k | 0 <= k < |first|
      ensures rules[k] == Rule(first[k], s1)
    {
      assert rules[k] == a[k];
    }
    forall k | 0 <= k < |second|
      ensures rules[|first| + k] == Rule(second[k], s2)
    {
      assert rules[|first| + k] == b[k];
    }
  }

  /** The first-tier scan finds a phrase: the first tier decides. */
  lemma TwoTierFirstHit(first: seq<string>, s1: Status, second: seq<string>, s2: Status, text: string)
    requires AnyOccurs(first, text)
    ensures RuleScan(Tier(first, s1) + Tier(second, s2), text) == s1
  {
    var rules := Tier(first, s1) + Tier(second, s2);
    TwoTierLayout(first, s1, second, s2);
    var k :| 0 <= k < |first| && Contains(text, first[k]);
    assert Contains(text, rules[k].phrase);
    var m := FirstRuleFrom(rules, text, 0).value;
    assert m <= k;
  }

  /** No first-tier phrase but a second-tier one: the second tier decides. */
  lemma TwoTierSecondHit(first: seq<string>, s1: Status, second: seq<string>, s2: Status, text: string)
    requires !AnyOccurs(first, text) && AnyOccurs(second, text)
    ensures RuleScan(Tier(first, s1) + Tier(second, s2), text) == s2
  {
    var rules := Tier(first, s1) + Tier(second, s2);
    TwoTierLayout(first, s1, second, s2);
    var k :| 0 <= k < |second| && Contains(text, second[k]);
    assert Contains(text, rules[|first| + k].phrase);
    var m := FirstRuleFrom(rules, text, 0).value;
    assert m >= |first|;
  }

  /** No phrase of either tier occurs: `unknown`. */
  lemma TwoTierNoHit(first: seq<string>, s1: Status, second: seq<string>, s2: Status, text: string)
    requires !AnyOccurs(first, text) && !AnyOccurs(second, text)
    ensures RuleScan(Tier(first, s1) + Tier(second, s2), text) == Unknown
  {
    var rules := Tier(first, s1) + Tier(second, s2);
    TwoTierLayout(first, s1, second, s2);
    forall k | 0 <= k < |rules|
      ensures !Contains(text, rules[k].phrase)
    {
      if k < |first| {
        assert rules[k].phrase == first[k];
      } else {
        assert rules[|first| + (k - |first|)].phrase == second[k - |first|];
      }
    }
  }

  /** A two-tier rule list (every `first` phrase before every `second` phrase)
      scans like the source's two loops: any first-tier phrase gives `s1`,
      otherwise any second-tier phrase gives `s2`, otherwise `unknown`. */
  lemma TwoTierScan(first: seq<string>, s1: Status, second: seq<string>, s2: Status, text: string)
    ensures RuleScan(Tier(first, s1) + Tier(second, s2), text) ==
            if AnyOccurs(first, text) then s1
            else if AnyOccurs(second, text) then s2
            else Unknown
  {
    if AnyOccurs(first, text) {
      TwoTierFirstHit(first, s1, second, s2, text);
    } else if AnyOccurs(second, text) {
      TwoTierSecondHit(first, s1, second, s2, text);
    } else {
      TwoTierNoHit(first, s1, second, s2, text);
    }
  }

  /** The multi-source checker's phrase lists as one ordered rule list. */
  function CheckerRules(): (rules: seq<Rule>)
    ensures |rules| == |OpenPhrases| + |ClosedPhrases|
  {
    Tier(OpenPhrases, Open) + Tier(ClosedPhrases, Closed)
  }

  /** The source's two loops are a first-match scan of the ordered rule list
      with the open rules first. */
  lemma ClassifyIsRuleScan(text: string)
    ensures ClassifyLowered(text) == RuleScan(CheckerRules(), text)
  {
    TwoTierScan(OpenPhrases, Open, ClosedPhrases, Closed, text);
  }
}
