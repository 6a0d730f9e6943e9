/** The parameter record of a `createCategoricalMarket` call, built from the
    market's subject, its parsed outcomes and the clock
    (packages/nextjs/app/telenome/create/page.tsx). */
module MarketParams {
  import opened Wrappers
  import opened JsString
  import opened MarketForm

  /** The record in the order of the factory contract's parameter struct;
      the positional order of the fields is the order of the struct. */
  datatype CreateMarketParams = CreateMarketParams(
    marketName: string,
    outcomes: seq<string>,
    questionStart: string,
    questionEnd: string,
    outcomeType: string,
    parentOutcome: int,
    parentMarket: string,
    category: string,
    lang: string,
    lowerBound: int,
    upperBound: int,
    minBond: int,
    openingTime: int,
    tokenNames: seq<string>)

  /** Seven days, the time between the start and the end of the question. */
  const QuestionDuration: int := 86400 * 7

  /** viem's `zeroAddress`: "no parent market". */
  const ZeroAddress: string := "0x0000000000000000000000000000000000000000"

  /** `BigInt(1e17)`: 0.1 of the chain's native unit, in its smallest unit. */
  const MinBond: int := 100_000_000_000_000_000

  /** The longest token name the page sends. */
  const MaxTokenNameLength: nat := 32

  /** `Math.floor(Date.now() / 1000)`: the whole seconds of a clock reading
      in milliseconds. */
  function EpochSeconds(nowMillis: int): (secs: int)
    ensures secs * 1000 <= nowMillis < secs * 1000 + 1000
  {
    nowMillis / 1000
  }

  function Min(a: nat, b: nat): nat {
    if a < b then a else b
  }

  /** `outcome.substring(0, 32)`: the outcome cut to its first 32 characters. */
  function TokenName(outcome: string): (r: string)
    ensures r == outcome[..Min(|outcome|, MaxTokenNameLength)]
  {
    SubstringPrefix(outcome, MaxTokenNameLength);
    Substring(outcome, 0, MaxTokenNameLength)
  }

  /** `outcomes.map(o => o.substring(0, 32))`. */
  function TokenNames(outcomes: seq<string>): (r: seq<string>)
    ensures |r| == |outcomes|
    ensures forall i :: 0 <= i < |r| ==> r[i] == TokenName(outcomes[i])
  {
    seq(|outcomes|, i requires 0 <= i < |outcomes| => TokenName(outcomes[i]))
  }

  /** A token name is its outcome when that fits in 32 characters, and the
      outcome's first 32 characters otherwise. */
  lemma TokenNameFits(outcome: string)
    ensures |outcome| <= MaxTokenNameLength ==> TokenName(outcome) == outcome
    ensures |outcome| > MaxTokenNameLength ==> TokenName(outcome) == outcome[..MaxTokenNameLength]
  {
    var r := TokenName(outcome);
    if |outcome| <= MaxTokenNameLength {
      assert |r| == |outcome|;
      assert outcome[..|outcome|] == outcome;
    }
  }

  /** Outcomes that fit in 32 characters are their own token names. */
  lemma ShortTokenNamesUnchanged(outcomes: seq<string>)
    requires forall i :: 0 <= i < |outcomes| ==> |outcomes[i]| <= MaxTokenNameLength
    ensures TokenNames(outcomes) == outcomes
  {
    forall i | 0 <= i < |outcomes| ensures TokenNames(outcomes)[i] == outcomes[i] {
      TokenNameFits(outcomes[i]);
    }
  }

  /** The record the page sends for a market named `subject` with the given
      outcomes, at the clock reading `nowMillis` (milliseconds since the
      epoch). The clock is read once. */
  function BuildParams(subject: string, outcomes: seq<string>, nowMillis: int): (p: CreateMarketParams)
    ensures p.marketName == subject && p.outcomes == outcomes
    ensures |p.tokenNames| == |p.outcomes|
  {
    var secs := EpochSeconds(nowMillis);
    CreateMarketParams(
      marketName := subject,
      outcomes := outcomes,
      questionStart := IntToDecimal(secs),
      questionEnd := IntToDecimal(secs + QuestionDuration),
      outcomeType := "categorical",
      parentOutcome := 0,
      parentMarket := ZeroAddress,
      category := "Default Category",
      lang := "en",
      lowerBound := 0,
      upperBound := 0,
      minBond := MinBond,
      openingTime := secs,
      tokenNames := TokenNames(outcomes))
  }

  /** The record holds the subject and the outcomes as given; the question
      starts and the market opens at the clock's whole seconds, written in
      decimal for the question's start; the question ends seven days later;
      the token names are the outcomes cut to 32 characters; every other
      field is a constant of a root categorical market. */
  lemma BuildParamsMeaning(subject: string, outcomes: seq<string>, nowMillis: int)
    ensures var p := BuildParams(subject, outcomes, nowMillis);
      p.marketName == subject && p.outcomes == outcomes
      && p.openingTime * 1000 <= nowMillis < p.openingTime * 1000 + 1000
      && IsIntegerText(p.questionStart) && IntegerValue(p.questionStart) == p.openingTime
      && IsIntegerText(p.questionEnd) && IntegerValue(p.questionEnd) == p.openingTime + 604800
      && p.outcomeType == "categorical" && p.parentOutcome == 0 && p.parentMarket == ZeroAddress
      && p.category == "Default Category" && p.lang == "en"
      && p.lowerBound == 0 && p.upperBound == 0 && p.minBond == 100_000_000_000_000_000
      && |p.tokenNames| == |p.outcomes|
      && forall i :: 0 <= i < |outcomes| ==>
        p.tokenNames[i] == outcomes[i][..Min(|outcomes[i]|, MaxTokenNameLength)]
  {
  }

  /** What a submit attempt sends, for form values that passed the schema:
      nothing when fewer than two outcomes are left after parsing, the
      record otherwise. */
  function BuildRequest(data: FormValues, nowMillis: int): (r: Option<CreateMarketParams>)
    ensures r.None? <==> |ParseOutcomes(data.outcomes)| < 2
    ensures r.Some? ==> r.value == BuildParams(data.subject, ParseOutcomes(data.outcomes), nowMillis)
    ensures r.Some? ==> r.value.marketName == data.subject && r.value.outcomes == ParseOutcomes(data.outcomes)
    ensures r.Some? ==> forall i :: 0 <= i < |r.value.outcomes| ==> IsCleanOutcome(r.value.outcomes[i])
  {
    var outcomes := ParseOutcomes(data.outcomes);
    ParseOutcomesAreClean(data.outcomes);
    if |outcomes| < 2 then None else Some(BuildParams(data.subject, outcomes, nowMillis))
  }

  /** The template and the description are validated but never sent: two
      forms that differ only in them give the same request. */
  lemma RequestIgnoresTemplateAndDescription(d1: FormValues, d2: FormValues, nowMillis: int)
    requires d1.subject == d2.subject && d1.outcomes == d2.outcomes
    ensures BuildRequest(d1, nowMillis) == BuildRequest(d2, nowMillis)
  {
  }

  /** "OnlyOne" is too few outcomes: nothing is built. */
  lemma RequestRejectsSingleOutcome(data: FormValues, nowMillis: int)
    requires data.outcomes == "OnlyOne"
    ensures BuildRequest(data, nowMillis).None?
  {
    ParseExampleOnlyOne();
  }

  /** When every parsed outcome fits in 32 characters, the token names are
      the outcomes themselves. */
  lemma ShortOutcomesAreTokenNames(data: FormValues, nowMillis: int)
    requires |ParseOutcomes(data.outcomes)| >= 2
    requires forall o :: o in ParseOutcomes(data.outcomes) ==> |o| <= MaxTokenNameLength
    ensures BuildRequest(data, nowMillis).Some?
    ensures BuildRequest(data, nowMillis).value.tokenNames == ParseOutcomes(data.outcomes)
  {
    ShortTokenNamesUnchanged(ParseOutcomes(data.outcomes));
  }

  /** "Yes, No" gives the outcomes and the token names ["Yes", "No"]. */
  lemma RequestForYesNo(data: FormValues, nowMillis: int)
    requires data.outcomes == "Yes, No"
    ensures BuildRequest(data, nowMillis).Some?
    ensures BuildRequest(data, nowMillis).value.outcomes == ["Yes", "No"]
    ensures BuildRequest(data, nowMillis).value.tokenNames == ["Yes", "No"]
  {
    assert ParseOutcomes(data.outcomes) == ["Yes", "No"] by {
      ParseExampleYesNo();
    }
    ShortOutcomesAreTokenNames(data, nowMillis);
  }
}
