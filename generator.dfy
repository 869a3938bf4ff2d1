/** What `generate_ai_response` hands back to the chat endpoint, given the
    outcome of the call to the language model: the model's text without its
    surrounding whitespace, or one of two fixed apologies when the call fails. */
module Generator {
  import opened Text

  /** The outcome of the call to the language model: the text of the first
      choice, or the text of the exception it raised. */
  datatype Outcome = Success(content: string) | Failure(error: string)

  /** The apology for a quota error at the provider. */
  const QuotaMessage: string :=
    "Lo siento, estamos experimentando un problema temporal con nuestro proveedor de IA. Por favor, intenta mas tarde."

  /** The apology for every other error. */
  const GenericMessage: string :=
    "Lo siento, hubo un error al procesar tu consulta. Por favor, intentalo de nuevo."

  const QuotaWord: string := "quota"

  /** The `except` branch: the error text, lower-cased, decides between the
      two apologies; nothing else of it reaches the customer. */
  function FailureMessage(error: string): (message: string)
    ensures message == QuotaMessage || message == GenericMessage
    ensures message == QuotaMessage <==> Contains(Lower(error), QuotaWord)
  {
    if Contains(Lower(error), QuotaWord) then QuotaMessage else GenericMessage
  }

  /** What `generate_ai_response` returns for an outcome of the call: on
      success the reply, no longer and with no whitespace at either end; on
      failure one of the two apologies, the quota one exactly when the
      lower-cased error contains "quota". */
  function GenerateAiResponse(outcome: Outcome): (r: string)
    ensures outcome.Success? ==> |r| <= |outcome.content|
    ensures outcome.Success? && r != [] ==> !IsSpace(r[0]) && !IsSpace(r[|r| - 1])
    ensures outcome.Failure? ==> r == QuotaMessage || r == GenericMessage
    ensures outcome.Failure? ==> (r == QuotaMessage <==> Contains(Lower(outcome.error), QuotaWord))
  {
    match outcome
    case Success(content) => Strip(content)
    case Failure(error) => FailureMessage(error)
  }

  // ---------------------------------------------------------------------------
  // Failures
  // ---------------------------------------------------------------------------

  /** The classification ignores case: an error and its lower-cased text get
      the same apology. */
  lemma FailureIgnoresCase(error: string)
    ensures FailureMessage(Lower(error)) == FailureMessage(error)
  {
    LowerIdempotent(error);
  }

  /** "quota", "Quota", "QUOTA" or any other casing of the word anywhere in
      the error gives the quota apology. */
  lemma QuotaInAnyCase(error: string, word: string)
    requires Contains(error, word) && Lower(word) == QuotaWord
    ensures GenerateAiResponse(Failure(error)) == QuotaMessage
  {
    LowerContains(error, word);
  }

  /** Conversely, the quota apology is given only for an error that holds
      the word in some casing, at the position returned. */
  lemma QuotaNeedsTheWord(error: string) returns (i: nat)
    requires GenerateAiResponse(Failure(error)) == QuotaMessage
    ensures i + |QuotaWord| <= |error|
    ensures Lower(error[i..i + |QuotaWord|]) == QuotaWord
  {
    var lower := Lower(error);
    i :| 0 <= i <= |lower| - |QuotaWord| && OccursAt(lower, QuotaWord, i);
    var word := error[i..i + |QuotaWord|];
    forall k | 0 <= k < |QuotaWord|
      ensures Lower(word)[k] == QuotaWord[k]
    {
      assert lower[i..i + |QuotaWord|][k] == lower[i + k];
    }
  }

  /** The apology depends on the error only through the quota test: the error
      text itself is never echoed, and two errors that agree on the test get
      the same apology. */
  lemma FailureHidesError(e1: string, e2: string)
    requires Contains(Lower(e1), QuotaWord) == Contains(Lower(e2), QuotaWord)
    ensures GenerateAiResponse(Failure(e1)) == GenerateAiResponse(Failure(e2))
    ensures |e1| > |QuotaMessage| ==> !Contains(GenerateAiResponse(Failure(e1)), e1)
  {
    assert |GenericMessage| < |QuotaMessage|;
  }

  /** The provider's quota error for an exhausted account. */
  lemma ExhaustedQuotaScenario()
    ensures GenerateAiResponse(Failure("You exceeded your current Quota")) == QuotaMessage
  {
    var error := "You exceeded your current Quota";
    assert error[26..31] == "Quota";
    assert OccursAt(error, "Quota", 26);
    assert Lower("Quota") == QuotaWord by {
      assert LowerChar('Q') == 'q';
    }
    QuotaInAnyCase(error, "Quota");
  }

  // ---------------------------------------------------------------------------
  // Successes
  // ---------------------------------------------------------------------------

  /** On success the customer gets the model's text with the whitespace around
      it removed and nothing else changed: only whitespace stood before and
      after it, and it neither starts nor ends with whitespace. */
  lemma SuccessIsTrimmed(content: string)
    ensures var r := GenerateAiResponse(Success(content));
            var i := LeadingSpaces(content);
            && i + |r| <= |content| && r == content[i..i + |r|]
            && (forall k :: 0 <= k < i ==> IsSpace(content[k]))
            && (forall k :: i + |r| <= k < |content| ==> IsSpace(content[k]))
            && (r != [] ==> !IsSpace(r[0]) && !IsSpace(r[|r| - 1]))
  {
    StripIsTrimmedSlice(content);
  }

  /** The answer is empty exactly when the model sent only whitespace. */
  lemma SuccessEmptyIff(content: string)
    ensures GenerateAiResponse(Success(content)) == [] <==> AllSpace(content)
  {
    StripIsTrimmedSlice(content);
    if AllSpace(content) {
      LeadingOfAllSpace(content);
    }
  }

  /** Stripping the answer again changes nothing. */
  lemma SuccessIsStable(content: string)
    ensures var r := GenerateAiResponse(Success(content));
            GenerateAiResponse(Success(r)) == r
  {
    StripIdempotent(content);
  }

  /** A reply with a line break and spaces before it and a space and a line
      break after it reaches the customer as the sentence alone. */
  lemma MonsteraScenario()
    ensures GenerateAiResponse(Success("\n  " + "Sí, tenemos Monstera." + " \n")) == "Sí, tenemos Monstera."
  {
    var answer := "Sí, tenemos Monstera.";
    assert answer[0] == 'S' && answer[|answer| - 1] == '.';
    StripAround("\n  ", answer, " \n");
  }

  /** Whitespace on both sides of a text that neither starts nor ends with
      whitespace is exactly what `strip()` removes. */
  lemma StripAround(before: string, s: string, after: string)
    requires AllSpace(before) && AllSpace(after)
    requires s != [] && !IsSpace(s[0]) && !IsSpace(s[|s| - 1])
    ensures Strip(before + s + after) == s
  {
    var text := before + s + after;
    LeadingOfPadded(before, s + after);
    AppendAssoc(before, s, after);
    assert text[|before|..] == s + after;
    TrailingOfPadded(s, after);
  }

  lemma {:induction false} LeadingOfAllSpace(s: string)
    requires AllSpace(s)
    ensures LeadingSpaces(s) == |s|
  {
    if s != [] {
      LeadingOfAllSpace(s[1..]);
    }
  }

  lemma {:induction false} LeadingOfPadded(before: string, rest: string)
    requires AllSpace(before)
    requires rest != [] && !IsSpace(rest[0])
    ensures LeadingSpaces(before + rest) == |before|
    decreases |before|
  {
    if before != [] {
      assert (before + rest)[1..] == before[1..] + rest;
      LeadingOfPadded(before[1..], rest);
    } else {
      assert before + rest == rest;
    }
  }

  lemma {:induction false} TrailingOfPadded(s: string, after: string)
    requires AllSpace(after)
    requires s != [] && !IsSpace(s[|s| - 1])
    ensures TrailingSpaces(s + after) == |after|
    decreases |after|
  {
    if after != [] {
      var shorter := after[..|after| - 1];
      assert (s + after)[..|s + after| - 1] == s + shorter;
      TrailingOfPadded(s, shorter);
    } else {
      assert s + after == s;
    }
  }
}
