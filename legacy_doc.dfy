/** `WordProcessor.process_doc`: the ordered fallback chain for legacy `.doc`
    files. Each strategy is an external call (a Word automation session or a
    conversion library); the model takes, as the parameter `run`, what each
    strategy would do for the file at hand, and proves which of those outcomes
    the chain reports. */
module LegacyDoc {
  import opened Wrappers
  import opened Content
  import OleCleanup

  /** The five extraction strategies. */
  datatype Strategy = Pywin32 | Textract | Win32com | Docx2txt | Olefile

  /** `extraction_methods`, in the order they are tried. */
  const Strategies: seq<Strategy> := [Pywin32, Textract, Win32com, Docx2txt, Olefile]

  /** What calling one strategy does: it returns a value (`None` or a string) or
      raises an exception with some message. */
  datatype Outcome = Returned(text: Option<string>) | Raised(error: string)

  /** Returned text must be longer than this to be accepted. */
  const MinLength := 10

  /** The message of the exception raised when every strategy failed and one of
      them raised. The source's f-string has no placeholder, so the words
      "(last error)" appear literally and the last error itself does not. */
  const ExhaustedMessage := "Failed to extract text from doc file after trying all methods: (last error)"

  /** The text returned when every strategy returned nothing usable and none
      raised (it has no closing bracket). */
  const Sentinel := "[Could not extract text from this doc file. The document may be password-protected, corrupt, or using a format that is not supported"

  /** The test `text and len(text) > 10`: the strategy returned a string (not
      `None`) that is non-empty and longer than ten characters. */
  predicate Accepted(o: Outcome) {
    o.Returned? && o.text.Some? && o.text.value != [] && |o.text.value| > MinLength
  }

  /** The metadata `process_doc` reports, whichever way it ends. */
  function LegacyMetadata(fileSize: nat): Metadata {
    map["page_count" := IntValue(1), "file_size" := IntValue(fileSize)]
  }

  /** The first strategy at or after `from` whose outcome is accepted. */
  function FirstAccepted(run: Strategy -> Outcome, from: nat): (r: Option<nat>)
    requires from <= |Strategies|
    ensures r.Some? ==>
      from <= r.value < |Strategies| && Accepted(run(Strategies[r.value])) &&
      forall j :: from <= j < r.value ==> !Accepted(run(Strategies[j]))
    ensures r.None? ==> forall j :: from <= j < |Strategies| ==> !Accepted(run(Strategies[j]))
    decreases |Strategies| - from
  {
    if from == |Strategies| then None
    else if Accepted(run(Strategies[from])) then Some(from)
    else FirstAccepted(run, from + 1)
  }

  /** `last_error` after the first `n` strategies: the error of the last of them
      that raised, or `None` if none did. */
  function LastRaised(run: Strategy -> Outcome, n: nat): Option<string>
    requires n <= |Strategies|
  {
    if n == 0 then None
    else match run(Strategies[n - 1])
      case Raised(e) => Some(e)
      case Returned(_) => LastRaised(run, n - 1)
  }

  /** What `process_doc` reports: the text of the first accepted strategy; when
      there is none, the exhaustion error if some strategy raised and the
      sentinel text otherwise. */
  function FallbackResult(run: Strategy -> Outcome, fileSize: nat): Result<Extraction> {
    match FirstAccepted(run, 0)
    case Some(k) => Ok(Extraction(run(Strategies[k]).text.value, LegacyMetadata(fileSize)))
    case None =>
      if LastRaised(run, |Strategies|).Some? then Err(ExhaustedMessage)
      else Ok(Extraction(Sentinel, LegacyMetadata(fileSize)))
  }

  /** How many strategies `process_doc` calls: up to and including the first
      accepted one, or all five. */
  function Consulted(run: Strategy -> Outcome): nat {
    match FirstAccepted(run, 0)
    case Some(k) => k + 1
    case None => |Strategies|
  }

  /** `process_doc`: the loop over `extraction_methods`. `attempted` lists the
      strategies it called, in order. */
  method ProcessDoc(run: Strategy -> Outcome, fileSize: nat)
    returns (r: Result<Extraction>, attempted: seq<Strategy>)
    ensures r == FallbackResult(run, fileSize)
    ensures attempted == Strategies[..Consulted(run)]
  {
    var metadata := LegacyMetadata(fileSize);
    var lastError: Option<string> := None;
    attempted := [];
    var i := 0;
    while i < |Strategies|
      invariant 0 <= i <= |Strategies|
      invariant attempted == Strategies[..i]
      invariant forall j :: 0 <= j < i ==> !Accepted(run(Strategies[j]))
      invariant lastError == LastRaised(run, i)
    {
      var strategy := Strategies[i];
      attempted := attempted + [strategy];
      var outcome := run(strategy);
      match outcome {
        case Raised(e) =>
          lastError := Some(e);
        case Returned(text) =>
          if text.Some? && text.value != [] && |text.value| > MinLength {
            r := Ok(Extraction(text.value, metadata));
            return;
          }
      }
      i := i + 1;
    }
    if lastError.Some? {
      r := Err(ExhaustedMessage);
    } else {
      r := Ok(Extraction(Sentinel, metadata));
    }
  }

  // ---------------------------------------------------------------------------
  // What the chain promises

  /** `last_error` is empty exactly when none of the first `n` strategies raised,
      and otherwise holds the error of the last one that did. */
  lemma {:induction false} LastRaisedIsLastError(run: Strategy -> Outcome, n: nat)
    requires n <= |Strategies|
    ensures LastRaised(run, n).None? <==> forall j :: 0 <= j < n ==> !run(Strategies[j]).Raised?
    ensures LastRaised(run, n).Some? ==>
      exists j :: 0 <= j < n && run(Strategies[j]) == Raised(LastRaised(run, n).value) &&
                  (forall k :: j < k < n ==> !run(Strategies[k]).Raised?)
  {
    if n > 0 {
      LastRaisedIsLastError(run, n - 1);
      if run(Strategies[n - 1]).Returned? && LastRaised(run, n).Some? {
        var j :| 0 <= j < n - 1 && run(Strategies[j]) == Raised(LastRaised(run, n - 1).value) &&
                 (forall k :: j < k < n - 1 ==> !run(Strategies[k]).Raised?);
        assert forall k :: j < k < n ==> !run(Strategies[k]).Raised?;
      }
    }
  }

  /** First wins: when strategy `k` is the first whose outcome is accepted, its
      text is the result and exactly the strategies up to `k` are called. */
  lemma FirstWins(run: Strategy -> Outcome, k: nat, fileSize: nat)
    requires k < |Strategies| && Accepted(run(Strategies[k]))
    requires forall j :: 0 <= j < k ==> !Accepted(run(Strategies[j]))
    ensures FallbackResult(run, fileSize) == Ok(Extraction(run(Strategies[k]).text.value, LegacyMetadata(fileSize)))
    ensures Consulted(run) == k + 1
  {
  }

  /** Later strategies are not consulted: two runs that agree on every strategy
      the first run calls end the same way. */
  lemma LaterStrategiesIgnored(run1: Strategy -> Outcome, run2: Strategy -> Outcome, fileSize: nat)
    requires forall j :: 0 <= j < Consulted(run1) && j < |Strategies| ==> run1(Strategies[j]) == run2(Strategies[j])
    ensures FallbackResult(run1, fileSize) == FallbackResult(run2, fileSize)
    ensures Consulted(run1) == Consulted(run2)
  {
    match FirstAccepted(run1, 0)
    case Some(k) =>
      FirstWins(run1, k, fileSize);
      FirstWins(run2, k, fileSize);
    case None =>
      LastRaisedAgree(run1, run2, |Strategies|);
  }

  lemma {:induction false} LastRaisedAgree(run1: Strategy -> Outcome, run2: Strategy -> Outcome, n: nat)
    requires n <= |Strategies|
    requires forall j :: 0 <= j < n ==> run1(Strategies[j]) == run2(Strategies[j])
    ensures LastRaised(run1, n) == LastRaised(run2, n)
  {
    if n > 0 {
      LastRaisedAgree(run1, run2, n - 1);
    }
  }

  /** The length gate: a strategy that returns `None`, an empty string or at most
      ten characters is passed over without touching `last_error`. */
  lemma LengthGate(run: Strategy -> Outcome, k: nat)
    requires k < |Strategies| && run(Strategies[k]).Returned?
    requires run(Strategies[k]).text.None? || |run(Strategies[k]).text.value| <= MinLength
    ensures FirstAccepted(run, 0) != Some(k)
    ensures LastRaised(run, k + 1) == LastRaised(run, k)
  {
  }

  /** A strategy that raises is passed over and becomes `last_error`. */
  lemma RaisingStrategy(run: Strategy -> Outcome, k: nat)
    requires k < |Strategies| && run(Strategies[k]).Raised?
    ensures FirstAccepted(run, 0) != Some(k)
    ensures LastRaised(run, k + 1) == Some(run(Strategies[k]).error)
  {
  }

  /** When no strategy is accepted: the chain raises its fixed message if any
      strategy raised, and otherwise returns the sentinel text. */
  lemma ExhaustionPolicy(run: Strategy -> Outcome, fileSize: nat)
    requires forall j :: 0 <= j < |Strategies| ==> !Accepted(run(Strategies[j]))
    ensures (exists j :: 0 <= j < |Strategies| && run(Strategies[j]).Raised?) ==>
      FallbackResult(run, fileSize) == Err(ExhaustedMessage)
    ensures (forall j :: 0 <= j < |Strategies| ==> !run(Strategies[j]).Raised?) ==>
      FallbackResult(run, fileSize) == Ok(Extraction(Sentinel, LegacyMetadata(fileSize)))
    ensures Consulted(run) == |Strategies|
  {
    LastRaisedIsLastError(run, |Strategies|);
  }

  /** The exhaustion error does not depend on which errors were raised: two runs
      that both exhaust the chain with some error raise the same message. */
  lemma ExhaustionHidesCause(run1: Strategy -> Outcome, run2: Strategy -> Outcome, fileSize: nat)
    requires forall j :: 0 <= j < |Strategies| ==> !Accepted(run1(Strategies[j])) && !Accepted(run2(Strategies[j]))
    requires exists j :: 0 <= j < |Strategies| && run1(Strategies[j]).Raised?
    requires exists j :: 0 <= j < |Strategies| && run2(Strategies[j]).Raised?
    ensures FallbackResult(run1, fileSize) == FallbackResult(run2, fileSize)
  {
    ExhaustionPolicy(run1, fileSize);
    ExhaustionPolicy(run2, fileSize);
  }

  /** A successful result is never empty or short: it is either an accepted
      strategy's text or the sentinel, and it always carries the default page
      count of 1 and the file size. */
  lemma SuccessIsNeverShort(run: Strategy -> Outcome, fileSize: nat)
    ensures FallbackResult(run, fileSize).Ok? ==>
      |FallbackResult(run, fileSize).value.text| > MinLength &&
      FallbackResult(run, fileSize).value.metadata == LegacyMetadata(fileSize)
  {
  }

  /** The metadata holds exactly the keys "page_count" (always 1) and "file_size". */
  lemma LegacyMetadataKeys(fileSize: nat)
    ensures LegacyMetadata(fileSize).Keys == {"page_count", "file_size"}
    ensures LegacyMetadata(fileSize)["page_count"] == IntValue(1)
    ensures LegacyMetadata(fileSize)["file_size"] == IntValue(fileSize)
  {
  }

  /** When the four earlier strategies fail and the olefile strategy returns its
      cleaned stream, the chain returns that text exactly when the stream holds
      more than ten '~' characters. */
  lemma OlefileWinsByTildeCount(run: Strategy -> Outcome, stream: string, fileSize: nat)
    requires forall j :: 0 <= j < 4 ==> !Accepted(run(Strategies[j]))
    requires run(Olefile) == Returned(Some(OleCleanup.Cleanup(stream)))
    ensures FallbackResult(run, fileSize) == Ok(Extraction(OleCleanup.Cleanup(stream), LegacyMetadata(fileSize)))
      <==> multiset(stream)['~'] > MinLength
  {
    var cleaned := OleCleanup.Cleanup(stream);
    OleCleanup.CleanupIsTildeCount(stream);
    assert Strategies[4] == Olefile;
    if multiset(stream)['~'] > MinLength {
      FirstWins(run, 4, fileSize);
    } else {
      ExhaustionPolicy(run, fileSize);
    }
  }
}
