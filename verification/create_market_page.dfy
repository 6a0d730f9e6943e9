/** The market-creation page's submit flow: the draft the form holds, the
    `submitting` flag, and the one write to the market factory per attempt
    (packages/nextjs/app/telenome/create/page.tsx). The connected wallet, the
    clock and the contract-write collaborator are inputs of each attempt. */
module CreateMarketPage {
  import opened Wrappers
  import opened MarketForm
  import opened MarketParams

  /** How the contract-write collaborator settles: it accepts the write, or
      it fails with an error whose `shortMessage` and `message` may be absent. */
  datatype WriteResult = Written | WriteError(shortMessage: Option<string>, message: Option<string>)

  /** A write handed to the collaborator: the contract function and its arguments. */
  datatype ContractWrite = ContractWrite(functionName: string, args: seq<CreateMarketParams>)

  /** How a submit attempt ends. */
  datatype SubmitOutcome =
    | Invalid(errors: seq<FieldError>)
    | NoWallet
    | TooFewOutcomes
    | Submitted
    | Failed(reason: string)
  {
    /** The notification the page shows for this outcome; form errors get
        none, their messages appear beside the fields. */
    function Notice(): (r: string)
      ensures r == "" <==> this.Invalid?
      ensures this.NoWallet? ==> r == "Please connect your wallet."
      ensures this.TooFewOutcomes? ==> r == "Please provide at least two outcomes."
      ensures this.Submitted? ==> r == "Market creation transaction submitted successfully!"
      ensures this.Failed? ==> r == "Error creating market: " + this.reason
    {
      match this
      case Invalid(_) => ""
      case NoWallet => "Please connect your wallet."
      case TooFewOutcomes => "Please provide at least two outcomes."
      case Submitted => "Market creation transaction submitted successfully!"
      case Failed(reason) => "Error creating market: " + reason
    }
  }

  const CreateFunctionName: string := "createCategoricalMarket"

  /** The form's values right after it is created or reset. */
  const EmptyForm: FormValues := FormValues("", "", "", "")

  /** `e.shortMessage || e.message || "Unknown error"`: the first of the two
      messages that is present and not empty, or the fallback. */
  function ErrorReason(shortMessage: Option<string>, message: Option<string>): (r: string)
    ensures r != ""
    ensures shortMessage.Some? && shortMessage.value != "" ==> r == shortMessage.value
    ensures (shortMessage.None? || shortMessage.value == "") && message.Some? && message.value != "" ==> r == message.value
    ensures (shortMessage.None? || shortMessage.value == "") && (message.None? || message.value == "") ==> r == "Unknown error"
  {
    if shortMessage.Some? && shortMessage.value != "" then shortMessage.value
    else if message.Some? && message.value != "" then message.value
    else "Unknown error"
  }

  class Page {
    var template: string
    var subject: string
    var description: string
    var outcomes: string
    /** True while a write is in flight. */
    var submitting: bool
    /** The writes handed to the contract-write collaborator so far, oldest first. */
    var sentWrites: seq<ContractWrite>

    function Values(): FormValues
      reads this
    {
      FormValues(template, subject, description, outcomes)
    }

    constructor ()
      ensures Values() == EmptyForm && !submitting && sentWrites == []
    {
      template, subject, description, outcomes := "", "", "", "";
      submitting := false;
      sentWrites := [];
    }

    /** The user types `text` into field `f`. */
    method Edit(f: Field, text: string)
      modifies this
      ensures FieldValue(Values(), f) == text
      ensures forall g: Field :: g != f ==> FieldValue(Values(), g) == FieldValue(old(Values()), g)
      ensures submitting == old(submitting) && sentWrites == old(sentWrites)
    {
      match f
      case Template => template := text;
      case Subject => subject := text;
      case Description => description := text;
      case Outcomes => outcomes := text;
    }

    /** `reset()`: every field back to its empty default. */
    method Reset()
      modifies this
      ensures Values() == EmptyForm
      ensures submitting == old(submitting) && sentWrites == old(sentWrites)
    {
      template, subject, description, outcomes := "", "", "", "";
    }

    /** `onSubmit`: one attempt to create a market from the validated values
        `data`. `connected` is the wallet's address, `nowMillis` the clock and
        `write` how the collaborator settles if it is called. */
    method OnSubmit(data: FormValues, connected: Option<string>, write: WriteResult, nowMillis: int)
      returns (outcome: SubmitOutcome)
      modifies this
      ensures !outcome.Invalid?
      // no wallet: nothing is parsed, sent or changed
      ensures outcome == NoWallet <==> connected.None?
      ensures connected.None? ==>
        Values() == old(Values()) && submitting == old(submitting) && sentWrites == old(sentWrites)
      // a wallet but fewer than two outcomes: nothing is sent
      ensures connected.Some? && BuildRequest(data, nowMillis).None? ==>
        outcome == TooFewOutcomes && Values() == old(Values()) && sentWrites == old(sentWrites)
      // otherwise exactly one write, whose only argument is the record
      ensures connected.Some? && BuildRequest(data, nowMillis).Some? ==>
        sentWrites == old(sentWrites) + [ContractWrite(CreateFunctionName, [BuildRequest(data, nowMillis).value])]
      ensures connected.Some? && BuildRequest(data, nowMillis).Some? && write.Written? ==>
        outcome == Submitted && Values() == EmptyForm
      ensures connected.Some? && BuildRequest(data, nowMillis).Some? && write.WriteError? ==>
        outcome == Failed(ErrorReason(write.shortMessage, write.message)) && Values() == old(Values())
      // every attempt past the wallet check ends with the flag down
      ensures connected.Some? ==> !submitting
    {
      if connected.None? {
        return NoWallet;
      }
      var outcomesArray := ParseOutcomes(data.outcomes);
      if |outcomesArray| < 2 {
        assert BuildRequest(data, nowMillis).None?;
        submitting := false;
        return TooFewOutcomes;
      }
      var marketParams := BuildParams(data.subject, outcomesArray, nowMillis);
      assert BuildRequest(data, nowMillis) == Some(marketParams);
      submitting := true;
      sentWrites := sentWrites + [ContractWrite(CreateFunctionName, [marketParams])];
      match write {
        case Written =>
          outcome := Submitted;
          Reset();
        case WriteError(shortMessage, message) =>
          outcome := Failed(ErrorReason(shortMessage, message));
      }
      submitting := false;
    }

    /** `handleSubmit(onSubmit)`: check the form against the schema; values
        that fail it are reported and go no further, values that pass it go
        to `OnSubmit`. */
    method HandleSubmit(connected: Option<string>, write: WriteResult, nowMillis: int)
      returns (outcome: SubmitOutcome)
      modifies this
      ensures Validate(old(Values())).Err? ==>
        outcome == Invalid(Validate(old(Values())).error)
        && Values() == old(Values()) && submitting == old(submitting) && sentWrites == old(sentWrites)
      ensures Validate(old(Values())).Ok? ==> !outcome.Invalid?
      // values that pass the schema go through `OnSubmit` unchanged
      ensures Validate(old(Values())).Ok? && connected.None? ==>
        outcome == NoWallet && submitting == old(submitting)
      ensures Validate(old(Values())).Ok? && connected.Some? && BuildRequest(old(Values()), nowMillis).None? ==>
        outcome == TooFewOutcomes
      ensures Validate(old(Values())).Ok? && connected.Some? && BuildRequest(old(Values()), nowMillis).Some? && write.Written? ==>
        outcome == Submitted
      ensures Validate(old(Values())).Ok? && connected.Some? && BuildRequest(old(Values()), nowMillis).Some? && write.WriteError? ==>
        outcome == Failed(ErrorReason(write.shortMessage, write.message))
      ensures Validate(old(Values())).Ok? && connected.Some? ==> !submitting
      ensures Validate(old(Values())).Ok? && connected.Some? && BuildRequest(old(Values()), nowMillis).Some? ==>
        sentWrites == old(sentWrites) + [ContractWrite(CreateFunctionName, [BuildRequest(old(Values()), nowMillis).value])]
      ensures !(Validate(old(Values())).Ok? && connected.Some? && BuildRequest(old(Values()), nowMillis).Some?) ==>
        sentWrites == old(sentWrites)
      ensures outcome == Submitted ==> Values() == EmptyForm
      ensures outcome != Submitted ==> Values() == old(Values())
    {
      var checked := Validate(Values());
      if checked.Err? {
        return Invalid(checked.error);
      }
      outcome := OnSubmit(checked.value, connected, write, nowMillis);
    }
  }
}
