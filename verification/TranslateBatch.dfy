/**
 `translateBatch` and `parseTranslationBatchReply` (scripts/control-ui-i18n.ts): two attempts per
 batch, the validation failure fed back into the second one, and a batch split in halves when the
 failure mentions a timeout. The provider is an arbitrary function of everything it is shown.
 */
module TranslateBatch {
  import opened Common
  import opened Text
  import opened Placeholders
  import opened TranslationBatches

  const TRANSLATE_MAX_ATTEMPTS := 2

  datatype Json = JsonString(text: string) | JsonOther

  /** What a prompt comes back with: the prompt throws, the reply is not JSON, or the reply has these
      properties; the wording of a placeholder mismatch is the environment's too. */
  datatype Reply =
    | PromptFailed(message: string)
    | Unreadable(message: string)
    | Properties(properties: map<string, Json>, mismatchMessage: string)

  /** Which prompt this is, the items it shows and the validation failure it quotes. */
  datatype Prompt = Prompt(number: nat, shown: seq<Item>, quoted: Option<string>)

  type Provider = Prompt -> Reply

  type Translations = map<string, string>

  predicate IsPromptTimeout(message: string) { Contains(ToLower(message), "timed out") }

  /** The phrase stands somewhere in the message, in any case of letters. */
  ghost predicate Mentions(message: string, phrase: string) {
    exists i: nat :: PhraseAt(message, phrase, i)
  }

  ghost predicate PhraseAt(message: string, phrase: string, i: nat) {
    i + |phrase| <= |message| && forall k :: 0 <= k < |phrase| ==> SameLetter(message[i + k], phrase[k])
  }

  predicate SameLetter(c: char, lower: char) {
    c == lower || ('A' <= c <= 'Z' && c as int - 'A' as int == lower as int - 'a' as int)
  }

  lemma {:induction false} TimeoutIffMentioned(message: string)
    ensures IsPromptTimeout(message) <==> Mentions(message, "timed out")
  {
    var lower, phrase := ToLower(message), "timed out";
    ToLowerAt(message);
    ContainsIff(lower, phrase);
    hide ToLower, Contains;
    if i :| 0 <= i <= |lower| && phrase <= lower[i..] {
      forall k | 0 <= k < |phrase| ensures SameLetter(message[i + k], phrase[k]) { assert phrase[k] == lower[i..][k]; }
      assert PhraseAt(message, phrase, i);
    }
    if i: nat :| PhraseAt(message, phrase, i) {
      forall k | 0 <= k < |phrase| ensures lower[i..][k] == phrase[k] { assert SameLetter(message[i + k], phrase[k]); }
      assert phrase <= lower[i..];
    }
  }

  // ----- validating a reply -----

  /** The first key of the batch without a usable value. */
  function FirstMissing(properties: map<string, Json>, items: seq<Item>): Option<string> {
    if items == [] then None
    else
      var key := items[0].key;
      if key !in properties || properties[key].JsonOther? || IsBlank(properties[key].text) then Some(key)
      else FirstMissing(properties, items[1..])
  }

  function Collect(properties: map<string, Json>, items: seq<Item>): Translations {
    map item <- items | item.key in properties && properties[item.key].JsonString? :: item.key := properties[item.key].text
  }

  /** `new Map(items.map(...))`: the last item of a key decides its source text. */
  function SourceTexts(items: seq<Item>): Translations {
    if items == [] then map[] else SourceTexts(items[..|items| - 1])[items[|items| - 1].key := items[|items| - 1].text]
  }

  /** The same names stand in braces in both texts. */
  predicate HasParity(source: string, translated: string) {
    ExtractPlaceholders(source) == ExtractPlaceholders(translated)
  }

  /** Whether findPlaceholderMismatches reports anything; a missing translation counts as empty. */
  predicate HasMismatch(sources: Translations, translated: Translations) {
    exists key :: key in sources && !HasParity(sources[key], if key in translated then translated[key] else "")
  }

  function Parse(reply: Reply, items: seq<Item>): Result<Translations, string> {
    match reply
    case PromptFailed(message) => Err(message)
    case Unreadable(message) => Err(message)
    case Properties(properties, mismatchMessage) =>
      match FirstMissing(properties, items)
      case Some(key) => Err("missing translation for " + key)
      case None =>
        var translated := Collect(properties, items);
        if HasMismatch(SourceTexts(items), translated) then Err(mismatchMessage) else Ok(translated)
  }

  // ----- attempts and splits -----

  datatype Outcome = Outcome(result: Result<Translations, string>, issued: nat)

  function Midpoint(items: seq<Item>): nat { (|items| + 1) / 2 }

  function Translate(p: Provider, items: seq<Item>, issued: nat): Outcome
    decreases |items|, TRANSLATE_MAX_ATTEMPTS + 1
  {
    Attempt(p, items, issued, 0, None, "translation failed")
  }

  function Attempt(p: Provider, items: seq<Item>, issued: nat, attempt: nat,
                   validationError: Option<string>, lastError: string): Outcome
    requires attempt <= TRANSLATE_MAX_ATTEMPTS
    decreases |items|, TRANSLATE_MAX_ATTEMPTS - attempt
  {
    if attempt == TRANSLATE_MAX_ATTEMPTS then Outcome(Err(lastError), issued)
    else
      var reply := p(Prompt(issued, items, validationError));
      match Parse(reply, items)
      case Ok(translated) => Outcome(Ok(translated), issued + 1)
      case Err(message) =>
        if IsPromptTimeout(message) && |items| > 1 then Split(p, items, issued + 1)
        else if IsPromptTimeout(message) then Outcome(Err(message), issued + 1)
        else
          Attempt(p, items, issued + 1, attempt + 1,
                  if reply.PromptFailed? then validationError else Some(message), message)
  }

  function Split(p: Provider, items: seq<Item>, issued: nat): Outcome
    requires |items| > 1
    decreases |items|, 0
  {
    var left := Translate(p, items[..Midpoint(items)], issued);
    if left.result.Err? then left
    else
      var right := Translate(p, items[Midpoint(items)..], left.issued);
      if right.result.Err? then right
      else Outcome(Ok(left.result.value + right.result.value), right.issued)
  }

  // ----- the prompts issued on the way -----

  ghost function Prompts(p: Provider, items: seq<Item>, issued: nat): seq<Prompt>
    decreases |items|, TRANSLATE_MAX_ATTEMPTS + 1
  {
    AttemptPrompts(p, items, issued, 0, None)
  }

  ghost function AttemptPrompts(p: Provider, items: seq<Item>, issued: nat, attempt: nat,
                                validationError: Option<string>): seq<Prompt>
    requires attempt <= TRANSLATE_MAX_ATTEMPTS
    decreases |items|, TRANSLATE_MAX_ATTEMPTS - attempt
  {
    if attempt == TRANSLATE_MAX_ATTEMPTS then []
    else
      var prompt := Prompt(issued, items, validationError);
      [prompt] +
      match Parse(p(prompt), items)
      case Ok(_) => []
      case Err(message) =>
        if IsPromptTimeout(message) && |items| > 1 then SplitPrompts(p, items, issued + 1)
        else if IsPromptTimeout(message) then []
        else
          AttemptPrompts(p, items, issued + 1, attempt + 1,
                         if p(prompt).PromptFailed? then validationError else Some(message))
  }

  ghost function SplitPrompts(p: Provider, items: seq<Item>, issued: nat): seq<Prompt>
    requires |items| > 1
    decreases |items|, 0
  {
    var left := Translate(p, items[..Midpoint(items)], issued);
    Prompts(p, items[..Midpoint(items)], issued) +
    if left.result.Err? then [] else Prompts(p, items[Midpoint(items)..], left.issued)
  }

  /** One turn of the loop. */
  lemma {:induction false} AttemptStep(p: Provider, items: seq<Item>, issued: nat, attempt: nat,
                                       validationError: Option<string>, lastError: string)
    requires attempt < TRANSLATE_MAX_ATTEMPTS
    ensures var prompt := Prompt(issued, items, validationError);
      var parsed := Parse(p(prompt), items);
      var o := Attempt(p, items, issued, attempt, validationError, lastError);
      if parsed.Ok? || (IsPromptTimeout(parsed.error) && |items| <= 1) then o == Outcome(parsed, issued + 1)
      else if IsPromptTimeout(parsed.error) then o == Split(p, items, issued + 1)
      else
        var quoted := if p(prompt).PromptFailed? then validationError else Some(parsed.error);
        o == Attempt(p, items, issued + 1, attempt + 1, quoted, parsed.error)
  {
    hide Parse, IsPromptTimeout;
  }

  /** The prompts issued in that turn and after it, behind those issued before. */
  lemma {:induction false} PromptsGoOn(p: Provider, items: seq<Item>, issued: nat, attempt: nat,
                                       validationError: Option<string>, before: seq<Prompt>)
    requires attempt < TRANSLATE_MAX_ATTEMPTS
    ensures var prompt := Prompt(issued, items, validationError);
      var parsed := Parse(p(prompt), items);
      before + AttemptPrompts(p, items, issued, attempt, validationError) ==
      before + [prompt] +
      if parsed.Ok? || (IsPromptTimeout(parsed.error) && |items| <= 1) then []
      else if IsPromptTimeout(parsed.error) then SplitPrompts(p, items, issued + 1)
      else
        AttemptPrompts(p, items, issued + 1, attempt + 1,
                       if p(prompt).PromptFailed? then validationError else Some(parsed.error))
  {
    hide Parse, IsPromptTimeout, SplitPrompts;
    var prompts := AttemptPrompts(p, items, issued, attempt, validationError);
    assert prompts[0] == Prompt(issued, items, validationError);
    Regroup(before, prompts[0], prompts[1..]);
    hide AttemptPrompts;
  }

  lemma {:induction false} SplitGoesOn(p: Provider, items: seq<Item>, issued: nat, before: seq<Prompt>)
    requires |items| > 1
    ensures var left := Translate(p, items[..Midpoint(items)], issued);
      before + SplitPrompts(p, items, issued) ==
      before + Prompts(p, items[..Midpoint(items)], issued) +
      if left.result.Err? then [] else Prompts(p, items[Midpoint(items)..], left.issued)
  {
    hide Prompts, Translate;
  }

  lemma Regroup<T>(before: seq<T>, first: T, rest: seq<T>)
    ensures before + ([first] + rest) == before + [first] + rest && ([first] + rest)[1..] == rest
  {
  }

  lemma {:induction false} AttemptsAreOver(p: Provider, items: seq<Item>, issued: nat,
                                           validationError: Option<string>, lastError: string, before: seq<Prompt>)
    ensures Attempt(p, items, issued, TRANSLATE_MAX_ATTEMPTS, validationError, lastError) == Outcome(Err(lastError), issued)
    ensures before + AttemptPrompts(p, items, issued, TRANSLATE_MAX_ATTEMPTS, validationError) == before
  {
  }

  method TranslateItems(p: Provider, items: seq<Item>, issuedBefore: nat)
    returns (result: Result<Translations, string>, issued: nat, ghost prompts: seq<Prompt>)
    ensures Outcome(result, issued) == Translate(p, items, issuedBefore)
    ensures prompts == Prompts(p, items, issuedBefore)
    decreases |items|
  {
    hide Parse, IsPromptTimeout, Attempt, AttemptPrompts, SplitPrompts;
    issued, prompts := issuedBefore, [];
    var lastError := "translation failed";
    var validationError: Option<string> := None;
    var attempt := 0;
    while attempt < TRANSLATE_MAX_ATTEMPTS
      invariant attempt <= TRANSLATE_MAX_ATTEMPTS
      invariant Translate(p, items, issuedBefore) == Attempt(p, items, issued, attempt, validationError, lastError)
      invariant Prompts(p, items, issuedBefore) == prompts + AttemptPrompts(p, items, issued, attempt, validationError)
    {
      AttemptStep(p, items, issued, attempt, validationError, lastError);
      PromptsGoOn(p, items, issued, attempt, validationError, prompts);
      var prompt := Prompt(issued, items, validationError);
      var reply := p(prompt);
      issued, prompts := issued + 1, prompts + [prompt];
      result := Parse(reply, items);
      if result.Ok? {
        return;
      }
      lastError := result.error;
      if !reply.PromptFailed? {
        validationError := Some(lastError);
      }
      if IsPromptTimeout(lastError) && |items| > 1 {
        SplitGoesOn(p, items, issued, prompts);
        var midpoint := (|items| + 1) / 2;
        var left, right;
        ghost var more;
        left, issued, more := TranslateItems(p, items[..midpoint], issued);
        prompts := prompts + more;
        if left.Err? {
          return left, issued, prompts;
        }
        right, issued, more := TranslateItems(p, items[midpoint..], issued);
        prompts := prompts + more;
        if right.Err? {
          return right, issued, prompts;
        }
        return Ok(left.value + right.value), issued, prompts;
      }
      if IsPromptTimeout(lastError) {
        break;
      }
      attempt := attempt + 1;
    }
    if attempt == TRANSLATE_MAX_ATTEMPTS {
      AttemptsAreOver(p, items, issued, validationError, lastError, prompts);
    }
    result := Err(lastError);
  }

  // ----- what a returned map is worth -----

  predicate Gives(reply: Reply, key: string, text: string) {
    reply.Properties? && key in reply.properties && reply.properties[key] == JsonString(text)
  }

  predicate HasKey(items: seq<Item>, key: string) { exists i :: 0 <= i < |items| && items[i].key == key }

  /** The last item of its key decides what the key's translation is held against. */
  predicate IsLastOfItsKey(items: seq<Item>, i: nat) {
    i < |items| && forall j :: i < j < |items| ==> items[j].key != items[i].key
  }

  /** Exactly the keys of the batch, with non-blank values that have the placeholders of the source. */
  ghost predicate Usable(translated: Translations, items: seq<Item>) {
    && (forall key :: key in translated <==> HasKey(items, key))
    && forall i: nat :: IsLastOfItsKey(items, i) ==>
         && items[i].key in translated && !IsBlank(translated[items[i].key])
         && ExtractPlaceholders(items[i].text) == ExtractPlaceholders(translated[items[i].key])
  }

  /** The same in terms of the map of source texts. */
  ghost predicate MatchesSources(translated: Translations, items: seq<Item>) {
    && translated.Keys == SourceTexts(items).Keys
    && forall key :: key in SourceTexts(items) ==>
         !IsBlank(translated[key]) && HasParity(SourceTexts(items)[key], translated[key])
  }

  lemma {:induction false} SourceTextsKeys(items: seq<Item>, key: string)
    ensures key in SourceTexts(items) <==> HasKey(items, key)
    decreases |items|
  {
    if items != [] {
      var front := items[..|items| - 1];
      SourceTextsKeys(front, key);
      if i :| 0 <= i < |front| && front[i].key == key { assert items[i].key == key; }
    }
  }

  /** What the map of source texts holds for a key. */
  lemma {:induction false} SourceTextIs(items: seq<Item>, key: string) returns (i: nat)
    requires key in SourceTexts(items)
    ensures IsLastOfItsKey(items, i) && items[i].key == key && SourceTexts(items)[key] == items[i].text
    decreases |items|
  {
    var n := |items| - 1;
    if items[n].key == key {
      i := n;
    } else {
      i := SourceTextIs(items[..n], key);
      assert items[..n][i] == items[i];
      assert forall j :: i < j < n ==> items[..n][j] == items[j];
    }
  }

  lemma {:induction false} SourceTextOf(items: seq<Item>, i: nat)
    requires IsLastOfItsKey(items, i)
    ensures items[i].key in SourceTexts(items) && SourceTexts(items)[items[i].key] == items[i].text
  {
    assert HasKey(items, items[i].key);
    SourceTextsKeys(items, items[i].key);
    var j := SourceTextIs(items, items[i].key);
  }

  lemma {:induction false} UsableIff(translated: Translations, items: seq<Item>)
    ensures Usable(translated, items) <==> MatchesSources(translated, items)
  {
    hide IsBlank, ExtractPlaceholders;
    forall key ensures key in SourceTexts(items) <==> HasKey(items, key) { SourceTextsKeys(items, key); }
    hide SourceTexts;
    if Usable(translated, items) {
      forall key | key in SourceTexts(items)
        ensures key in translated && !IsBlank(translated[key]) && HasParity(SourceTexts(items)[key], translated[key])
      {
        var i := SourceTextIs(items, key);
      }
    }
    if MatchesSources(translated, items) {
      forall i: nat | IsLastOfItsKey(items, i)
        ensures items[i].key in translated && !IsBlank(translated[items[i].key])
        ensures ExtractPlaceholders(items[i].text) == ExtractPlaceholders(translated[items[i].key])
      {
        SourceTextOf(items, i);
      }
    }
  }

  lemma {:induction false} NothingMissing(properties: map<string, Json>, items: seq<Item>)
    ensures FirstMissing(properties, items).None? <==>
      forall i :: 0 <= i < |items| ==>
        && items[i].key in properties && properties[items[i].key].JsonString?
        && !IsBlank(properties[items[i].key].text)
  {
    hide IsBlank;
    if items != [] {
      NothingMissing(properties, items[1..]);
      assert forall i :: 1 <= i < |items| ==> items[i] == items[1..][i - 1];
    }
  }

  lemma {:induction false} CollectedMatches(properties: map<string, Json>, items: seq<Item>)
    requires FirstMissing(properties, items).None?
    ensures var translated := Collect(properties, items);
      && translated.Keys == SourceTexts(items).Keys
      && forall key :: key in translated ==>
           properties[key] == JsonString(translated[key]) && !IsBlank(translated[key])
  {
    hide IsBlank;
    NothingMissing(properties, items);
    var translated := Collect(properties, items);
    forall key ensures key in SourceTexts(items) <==> key in translated {
      SourceTextsKeys(items, key);
      if i :| 0 <= i < |items| && items[i].key == key { assert items[i] in items; }
    }
  }

  /** A reply is accepted if and only if it gives every item a non-blank text with the placeholders of the source;
      the translations are those texts. */
  lemma {:induction false} AcceptedIff(reply: Reply, items: seq<Item>)
    ensures Parse(reply, items).Ok? <==>
      && reply.Properties?
      && (forall i :: 0 <= i < |items| ==>
            && items[i].key in reply.properties && reply.properties[items[i].key].JsonString?
            && !IsBlank(reply.properties[items[i].key].text))
      && forall i: nat :: IsLastOfItsKey(items, i) ==>
           ExtractPlaceholders(items[i].text) == ExtractPlaceholders(reply.properties[items[i].key].text)
    ensures Parse(reply, items).Ok? ==>
      && Usable(Parse(reply, items).value, items)
      && forall key :: key in Parse(reply, items).value ==> Gives(reply, key, Parse(reply, items).value[key])
  {
    hide IsBlank, ExtractPlaceholders, Collect, SourceTexts, FirstMissing;
    if reply.Properties? {
      NothingMissing(reply.properties, items);
      if FirstMissing(reply.properties, items).None? {
        CollectedMatches(reply.properties, items);
        var translated := Collect(reply.properties, items);
        UsableIff(translated, items);
        if Parse(reply, items).Ok? { assert MatchesSources(translated, items); }
        forall i: nat | IsLastOfItsKey(items, i)
          ensures items[i].key in SourceTexts(items) && SourceTexts(items)[items[i].key] == items[i].text
        {
          SourceTextOf(items, i);
        }
        forall key | key in SourceTexts(items)
          ensures exists i: nat :: IsLastOfItsKey(items, i) && items[i].key == key && SourceTexts(items)[key] == items[i].text
        {
          var i := SourceTextIs(items, key);
        }
      }
    }
  }

  /** What a rejected reply is rejected for: the prompt's own failure, the first item without a usable text, or a
      placeholder that is not the source's. */
  lemma {:induction false} WhyTurnedDown(reply: Reply, items: seq<Item>) returns (missing: Option<nat>)
    requires Parse(reply, items).Err?
    ensures match reply
      case Properties(properties, mismatchMessage) =>
        (match missing
         case Some(i) =>
           && i < |items| && Parse(reply, items).error == "missing translation for " + items[i].key
           && (forall text :: IsBlank(text) || !Gives(reply, items[i].key, text))
           && forall j :: 0 <= j < i ==> exists text :: !IsBlank(text) && Gives(reply, items[j].key, text)
         case None =>
           && Parse(reply, items).error == mismatchMessage
           && forall j :: 0 <= j < |items| ==> exists text :: !IsBlank(text) && Gives(reply, items[j].key, text))
      case _ => Parse(reply, items).error == reply.message
  {
    hide IsBlank, HasMismatch;
    missing := None;
    if reply.Properties? { missing := FirstMissingIs(reply, items); }
  }

  lemma {:induction false} FirstMissingIs(reply: Reply, items: seq<Item>) returns (missing: Option<nat>)
    requires reply.Properties?
    ensures match missing
      case Some(i) =>
        && i < |items| && FirstMissing(reply.properties, items) == Some(items[i].key)
        && (forall text :: IsBlank(text) || !Gives(reply, items[i].key, text))
      case None => FirstMissing(reply.properties, items) == None
    ensures forall j :: 0 <= j < (if missing.Some? then missing.value else |items|) ==>
      exists text :: !IsBlank(text) && Gives(reply, items[j].key, text)
  {
    hide IsBlank;
    if items == [] {
      missing := None;
    } else if exists text :: !IsBlank(text) && Gives(reply, items[0].key, text) {
      var rest := FirstMissingIs(reply, items[1..]);
      missing := if rest.Some? then Some(rest.value + 1) else None;
      assert forall j :: 1 <= j < |items| ==> items[j] == items[1..][j - 1];
    } else {
      missing := Some(0);
      var key := items[0].key;
      if key in reply.properties && reply.properties[key].JsonString? {
        assert Gives(reply, key, reply.properties[key].text);
      }
    }
  }

  /** Translations of the two halves combine: where a key is in both, the right half decides twice. */
  lemma {:induction false} SourceTextsOfConcat(a: seq<Item>, b: seq<Item>)
    ensures SourceTexts(a + b) == SourceTexts(a) + SourceTexts(b)
    decreases |b|
  {
    if b == [] {
      assert a + b == a;
    } else {
      assert (a + b)[..|a + b| - 1] == a + b[..|b| - 1];
      SourceTextsOfConcat(a, b[..|b| - 1]);
    }
  }

  lemma {:induction false} HalvesCombine(a: seq<Item>, b: seq<Item>, left: Translations, right: Translations)
    requires Usable(left, a) && Usable(right, b)
    ensures Usable(left + right, a + b)
  {
    hide IsBlank, HasParity, Usable;
    UsableIff(left, a);
    UsableIff(right, b);
    UsableIff(left + right, a + b);
    SourceTextsOfConcat(a, b);
  }

  /** Whatever the provider does, a returned map is usable. */
  lemma {:induction false} TranslationIsUsable(p: Provider, items: seq<Item>, issued: nat)
    ensures var r := Translate(p, items, issued).result; r.Ok? ==> Usable(r.value, items)
    decreases |items|, TRANSLATE_MAX_ATTEMPTS + 1
  {
    AttemptIsUsable(p, items, issued, 0, None, "translation failed");
  }

  lemma {:induction false} AttemptIsUsable(p: Provider, items: seq<Item>, issued: nat, attempt: nat,
                                           validationError: Option<string>, lastError: string)
    requires attempt <= TRANSLATE_MAX_ATTEMPTS
    ensures var r := Attempt(p, items, issued, attempt, validationError, lastError).result;
      r.Ok? ==> Usable(r.value, items)
    decreases |items|, TRANSLATE_MAX_ATTEMPTS - attempt
  {
    hide Usable, IsPromptTimeout;
    if attempt < TRANSLATE_MAX_ATTEMPTS {
      var reply := p(Prompt(issued, items, validationError));
      var parsed := Parse(reply, items);
      if parsed.Ok? {
        AcceptedIff(reply, items);
      } else {
        hide Parse;
        if IsPromptTimeout(parsed.error) && |items| > 1 {
          SplitIsUsable(p, items, issued + 1);
        } else if !IsPromptTimeout(parsed.error) {
          AttemptIsUsable(p, items, issued + 1, attempt + 1,
                          if reply.PromptFailed? then validationError else Some(parsed.error), parsed.error);
        }
      }
    }
  }

  lemma {:induction false} SplitIsUsable(p: Provider, items: seq<Item>, issued: nat)
    requires |items| > 1
    ensures var r := Split(p, items, issued).result; r.Ok? ==> Usable(r.value, items)
    decreases |items|, 0
  {
    hide Usable, Attempt;
    var a, b := items[..Midpoint(items)], items[Midpoint(items)..];
    var left := Translate(p, a, issued);
    TranslationIsUsable(p, a, issued);
    TranslationIsUsable(p, b, left.issued);
    var right := Translate(p, b, left.issued);
    if left.result.Ok? && right.result.Ok? {
      HalvesCombine(a, b, left.result.value, right.result.value);
      assert a + b == items;
    }
  }

  // ----- where the values come from -----

  /** One of these prompts showed an item with this key, and had this text for it in a reply that was accepted. */
  ghost predicate Provided(p: Provider, prompts: seq<Prompt>, key: string, text: string) {
    exists q :: q in prompts && HasKey(q.shown, key) && Parse(p(q), q.shown).Ok? && Gives(p(q), key, text)
  }

  ghost predicate AllProvided(p: Provider, prompts: seq<Prompt>, result: Result<Translations, string>) {
    result.Ok? ==> forall key :: key in result.value ==> Provided(p, prompts, key, result.value[key])
  }

  lemma ProvidedAmong(p: Provider, prompts: seq<Prompt>, more: seq<Prompt>, key: string, text: string)
    requires forall q :: q in prompts ==> q in more
    ensures Provided(p, prompts, key, text) ==> Provided(p, more, key, text)
  {
  }

  lemma {:induction false} AllProvidedAmong(p: Provider, prompts: seq<Prompt>, more: seq<Prompt>,
                                            result: Result<Translations, string>)
    requires AllProvided(p, prompts, result) && forall q :: q in prompts ==> q in more
    ensures AllProvided(p, more, result)
  {
    hide Provided;
    if result.Ok? {
      forall key | key in result.value ensures Provided(p, more, key, result.value[key]) {
        ProvidedAmong(p, prompts, more, key, result.value[key]);
      }
    }
  }

  lemma {:induction false} ReplyProvides(p: Provider, q: Prompt)
    ensures AllProvided(p, [q], Parse(p(q), q.shown))
  {
    var parsed := Parse(p(q), q.shown);
    if parsed.Ok? {
      forall key | key in parsed.value ensures Provided(p, [q], key, parsed.value[key]) {
        assert q in [q] && Gives(p(q), key, parsed.value[key]);
      }
    }
  }

  /** Every value that is returned was given for that key by the provider in answer to one of the prompts issued. */
  lemma {:induction false} ValuesAreProvided(p: Provider, items: seq<Item>, issued: nat)
    ensures AllProvided(p, Prompts(p, items, issued), Translate(p, items, issued).result)
    decreases |items|, TRANSLATE_MAX_ATTEMPTS + 1
  {
    AttemptIsProvided(p, items, issued, 0, None, "translation failed");
  }

  lemma {:induction false} AttemptIsProvided(p: Provider, items: seq<Item>, issued: nat, attempt: nat,
                                             validationError: Option<string>, lastError: string)
    requires attempt <= TRANSLATE_MAX_ATTEMPTS
    ensures AllProvided(p, AttemptPrompts(p, items, issued, attempt, validationError),
                        Attempt(p, items, issued, attempt, validationError, lastError).result)
    decreases |items|, TRANSLATE_MAX_ATTEMPTS - attempt
  {
    hide Provided, IsPromptTimeout, Parse;
    if attempt < TRANSLATE_MAX_ATTEMPTS {
      var prompt := Prompt(issued, items, validationError);
      var parsed := Parse(p(prompt), items);
      var prompts := AttemptPrompts(p, items, issued, attempt, validationError);
      if parsed.Ok? {
        ReplyProvides(p, prompt);
        AllProvidedAmong(p, [prompt], prompts, parsed);
      } else if IsPromptTimeout(parsed.error) && |items| > 1 {
        SplitIsProvided(p, items, issued + 1);
        AllProvidedAmong(p, SplitPrompts(p, items, issued + 1), prompts, Split(p, items, issued + 1).result);
      } else if !IsPromptTimeout(parsed.error) {
        var quoted := if p(prompt).PromptFailed? then validationError else Some(parsed.error);
        AttemptIsProvided(p, items, issued + 1, attempt + 1, quoted, parsed.error);
        AllProvidedAmong(p, AttemptPrompts(p, items, issued + 1, attempt + 1, quoted), prompts,
                         Attempt(p, items, issued + 1, attempt + 1, quoted, parsed.error).result);
      }
    }
  }

  lemma {:induction false} SplitIsProvided(p: Provider, items: seq<Item>, issued: nat)
    requires |items| > 1
    ensures AllProvided(p, SplitPrompts(p, items, issued), Split(p, items, issued).result)
    decreases |items|, 0
  {
    hide Provided, Attempt, AttemptPrompts;
    var a, b := items[..Midpoint(items)], items[Midpoint(items)..];
    var left := Translate(p, a, issued);
    var right := Translate(p, b, left.issued);
    ValuesAreProvided(p, a, issued);
    ValuesAreProvided(p, b, left.issued);
    hide Translate, Prompts;
    if left.result.Ok? && right.result.Ok? {
      AllProvidedAmong(p, Prompts(p, a, issued), SplitPrompts(p, items, issued), left.result);
      AllProvidedAmong(p, Prompts(p, b, left.issued), SplitPrompts(p, items, issued), right.result);
    }
  }

  // ----- what is asked -----

  /** This prompt quotes why the reply to that one, which showed the same items, was turned down. */
  predicate Quotes(p: Provider, q: Prompt, before: Prompt) {
    && q.shown == before.shown && !p(before).PromptFailed?
    && Parse(p(before), q.shown).Err? && q.quoted == Some(Parse(p(before), q.shown).error)
  }

  /** The prompts are numbered one after the other from the first on, and quote nothing but the failure before. */
  ghost predicate AreAsked(p: Provider, prompts: seq<Prompt>, first: nat) {
    && (forall i :: 0 <= i < |prompts| ==> prompts[i].number == first + i)
    && (forall i :: 1 <= i < |prompts| && prompts[i].quoted.Some? ==> Quotes(p, prompts[i], prompts[i - 1]))
  }

  lemma {:induction false} AskedInTurn(p: Provider, a: seq<Prompt>, b: seq<Prompt>, first: nat)
    requires AreAsked(p, a, first) && AreAsked(p, b, first + |a|)
    requires a != [] && b != [] && b[0].quoted.Some? ==> Quotes(p, b[0], a[|a| - 1])
    ensures AreAsked(p, a + b, first)
  {
    hide Quotes;
  }

  /** As many prompts are issued as are counted, one after the other; the first shows all items and quotes nothing,
      and any other quotes nothing or the failure of the one before. */
  lemma {:induction false} PromptsAreAsked(p: Provider, items: seq<Item>, issued: nat)
    ensures var prompts := Prompts(p, items, issued);
      && prompts != [] && prompts[0] == Prompt(issued, items, None)
      && Translate(p, items, issued).issued == issued + |prompts| && AreAsked(p, prompts, issued)
    decreases |items|, TRANSLATE_MAX_ATTEMPTS + 1
  {
    AttemptIsAsked(p, items, issued, 0, None, "translation failed");
  }

  lemma {:induction false} AttemptIsAsked(p: Provider, items: seq<Item>, issued: nat, attempt: nat,
                                          validationError: Option<string>, lastError: string)
    requires attempt <= TRANSLATE_MAX_ATTEMPTS && (attempt == 0 ==> validationError.None?)
    ensures var prompts := AttemptPrompts(p, items, issued, attempt, validationError);
      && (prompts == [] <==> attempt == TRANSLATE_MAX_ATTEMPTS)
      && (prompts != [] ==> prompts[0] == Prompt(issued, items, validationError))
      && Attempt(p, items, issued, attempt, validationError, lastError).issued == issued + |prompts|
      && AreAsked(p, prompts, issued)
    decreases |items|, TRANSLATE_MAX_ATTEMPTS - attempt
  {
    hide IsPromptTimeout, Parse;
    if attempt < TRANSLATE_MAX_ATTEMPTS {
      var prompt := Prompt(issued, items, validationError);
      var parsed := Parse(p(prompt), items);
      if parsed.Err? && IsPromptTimeout(parsed.error) && |items| > 1 {
        SplitIsAsked(p, items, issued + 1);
        AskedInTurn(p, [prompt], SplitPrompts(p, items, issued + 1), issued);
      } else if parsed.Err? && !IsPromptTimeout(parsed.error) {
        var quoted := if p(prompt).PromptFailed? then validationError else Some(parsed.error);
        AttemptIsAsked(p, items, issued + 1, attempt + 1, quoted, parsed.error);
        AskedInTurn(p, [prompt], AttemptPrompts(p, items, issued + 1, attempt + 1, quoted), issued);
      }
    }
  }

  /** The halves are asked one after the other, the second only when the first has come back, and their results
      combined; the first half has the odd item, and a failure of either is the failure of both. */
  ghost predicate IsHalved(p: Provider, items: seq<Item>, issued: nat, prompts: seq<Prompt>, o: Outcome) {
    var m := |items| - |items| / 2;
    var left := Translate(p, items[..m], issued);
    if left.result.Err? then prompts == Prompts(p, items[..m], issued) && o == left
    else
      var right := Translate(p, items[m..], left.issued);
      && prompts == Prompts(p, items[..m], issued) + Prompts(p, items[m..], left.issued)
      && o == if right.result.Err? then right else Outcome(Ok(left.result.value + right.result.value), right.issued)
  }

  lemma {:induction false} SplitIsHalved(p: Provider, items: seq<Item>, issued: nat)
    requires |items| > 1
    ensures IsHalved(p, items, issued, SplitPrompts(p, items, issued), Split(p, items, issued))
  {
    hide Translate, Prompts;
    assert Midpoint(items) == |items| - |items| / 2;
    var prompts := Prompts(p, items[..Midpoint(items)], issued);
    assert prompts + [] == prompts;
  }

  /** One turn of the attempts and the prompts together. */
  lemma {:induction false} AttemptTurns(p: Provider, items: seq<Item>, issued: nat, attempt: nat,
                                        quoted: Option<string>, lastError: string)
    requires attempt < TRANSLATE_MAX_ATTEMPTS
    ensures var prompt := Prompt(issued, items, quoted);
      var parsed := Parse(p(prompt), items);
      var o := Attempt(p, items, issued, attempt, quoted, lastError);
      var prompts := AttemptPrompts(p, items, issued, attempt, quoted);
      prompts != [] && prompts[0] == prompt &&
      if parsed.Ok? || (IsPromptTimeout(parsed.error) && |items| <= 1) then
        prompts == [prompt] && o.result == parsed
      else if IsPromptTimeout(parsed.error) then IsHalved(p, items, issued + 1, prompts[1..], o)
      else
        var next := if p(prompt).PromptFailed? then quoted else Some(parsed.error);
        && o == Attempt(p, items, issued + 1, attempt + 1, next, parsed.error)
        && prompts[1..] == AttemptPrompts(p, items, issued + 1, attempt + 1, next)
        && (attempt + 1 == TRANSLATE_MAX_ATTEMPTS ==> prompts == [prompt] && o.result == parsed)
  {
    hide Parse, IsPromptTimeout, IsHalved, Split, SplitPrompts;
    if |items| > 1 { SplitIsHalved(p, items, issued + 1); }
  }

  lemma {:induction false} SplitIsAsked(p: Provider, items: seq<Item>, issued: nat)
    requires |items| > 1
    ensures var prompts := SplitPrompts(p, items, issued);
      && prompts != [] && prompts[0].quoted.None?
      && Split(p, items, issued).issued == issued + |prompts| && AreAsked(p, prompts, issued)
    decreases |items|, 0
  {
    hide Attempt, AttemptPrompts, AreAsked;
    var a, b := items[..Midpoint(items)], items[Midpoint(items)..];
    var left := Translate(p, a, issued);
    PromptsAreAsked(p, a, issued);
    PromptsAreAsked(p, b, left.issued);
    hide Translate, Prompts;
    AskedInTurn(p, Prompts(p, a, issued), Prompts(p, b, left.issued), issued);
    assert Prompts(p, a, issued) + [] == Prompts(p, a, issued);
  }

  /** The prompts in turn: after an accepted reply none; after a timeout those of the halves, or none for a single
      item; after any other failure one more for the same items, which quotes it if there was a reply. */
  lemma {:induction false} WhatIsAskedNext(p: Provider, items: seq<Item>, issued: nat)
    ensures var prompts, o := Prompts(p, items, issued), Translate(p, items, issued);
      var first := Prompt(issued, items, None);
      var parsed := Parse(p(first), items);
      prompts != [] && prompts[0] == first &&
      if parsed.Ok? || (Mentions(parsed.error, "timed out") && |items| <= 1) then prompts == [first] && o.result == parsed
      else if Mentions(parsed.error, "timed out") then IsHalved(p, items, issued + 1, prompts[1..], o)
      else
        var second := Prompt(issued + 1, items, if p(first).PromptFailed? then None else Some(parsed.error));
        var again := Parse(p(second), items);
        && |prompts| > 1 && prompts[1] == second
        && if again.Err? && Mentions(again.error, "timed out") && |items| > 1
           then IsHalved(p, items, issued + 2, prompts[2..], o)
           else prompts == [first, second] && o.result == again
  {
    hide Parse, IsPromptTimeout, Mentions;
    var first := Prompt(issued, items, None);
    var parsed := Parse(p(first), items);
    AttemptTurns(p, items, issued, 0, None, "translation failed");
    if parsed.Err? {
      TimeoutIffMentioned(parsed.error);
      if !IsPromptTimeout(parsed.error) {
        var quoted := if p(first).PromptFailed? then None else Some(parsed.error);
        var again := Parse(p(Prompt(issued + 1, items, quoted)), items);
        AttemptTurns(p, items, issued + 1, 1, quoted, parsed.error);
        if again.Err? { TimeoutIffMentioned(again.error); }
      }
    }
  }

  /** When a prompt for several items fails with a message that has `timed out` anywhere in it, the next prompt shows
      exactly the first half, and quotes nothing. */
  lemma {:induction false} TimedOutBatchIsHalved(p: Provider, items: seq<Item>, issued: nat, message: string)
    requires |items| > 1 && p(Prompt(issued, items, None)) == PromptFailed(message) && Mentions(message, "timed out")
    ensures |Prompts(p, items, issued)| > 1
    ensures Prompts(p, items, issued)[1] == Prompt(issued + 1, items[..(|items| + 1) / 2], None)
  {
    hide Prompts, Translate, Mentions;
    WhatIsAskedNext(p, items, issued);
    assert |items| - |items| / 2 == (|items| + 1) / 2;
    PromptsAreAsked(p, items[..(|items| + 1) / 2], issued + 1);
  }

  // ----- how many prompts it takes -----

  function MaxPrompts(n: nat): nat { if n == 0 then 2 else 4 * n - 2 }

  lemma {:induction false} PromptsAreBounded(p: Provider, items: seq<Item>, issued: nat)
    ensures issued < Translate(p, items, issued).issued <= issued + MaxPrompts(|items|)
    decreases |items|, TRANSLATE_MAX_ATTEMPTS + 1
  {
    AttemptIsBounded(p, items, issued, 0, None, "translation failed");
  }

  lemma {:induction false} AttemptIsBounded(p: Provider, items: seq<Item>, issued: nat, attempt: nat,
                                            validationError: Option<string>, lastError: string)
    requires attempt <= TRANSLATE_MAX_ATTEMPTS
    ensures var o := Attempt(p, items, issued, attempt, validationError, lastError);
      && o.issued <= issued + MaxPrompts(|items|) - attempt
      && (attempt < TRANSLATE_MAX_ATTEMPTS ==> issued < o.issued)
    decreases |items|, TRANSLATE_MAX_ATTEMPTS - attempt
  {
    hide IsPromptTimeout, Parse;
    if attempt < TRANSLATE_MAX_ATTEMPTS {
      var reply := p(Prompt(issued, items, validationError));
      var parsed := Parse(reply, items);
      if parsed.Err? {
        if IsPromptTimeout(parsed.error) && |items| > 1 {
          var m := Midpoint(items);
          PromptsAreBounded(p, items[..m], issued + 1);
          PromptsAreBounded(p, items[m..], Translate(p, items[..m], issued + 1).issued);
        } else if !IsPromptTimeout(parsed.error) {
          AttemptIsBounded(p, items, issued + 1, attempt + 1,
                           if reply.PromptFailed? then validationError else Some(parsed.error), parsed.error);
        }
      }
    }
  }

  /** A provider that answers a first prompt with garbage, a second one late, and single items well. */
  function Stubborn(q: Prompt): Reply {
    if q.quoted.None? then Unreadable("?")
    else if |q.shown| != 1 then PromptFailed("timed out")
    else Properties(map[q.shown[0].key := JsonString(if IsBlank(q.shown[0].text) then "?" else q.shown[0].text)], "")
  }

  lemma {:induction false} BlankHasNoPlaceholders(text: string)
    requires IsBlank(text)
    ensures ExtractPlaceholders(text) == {}
  {
    if name :| name in ExtractPlaceholders(text) {
      var at := ScanIsSound(text, name, 0);
    }
  }

  lemma {:induction false} StubbornAnswersOneItem(item: Item, issued: nat)
    ensures Parse(Stubborn(Prompt(issued, [item], Some("?"))), [item]).Ok?
  {
    if IsBlank(item.text) { BlankHasNoPlaceholders(item.text); }
    assert ExtractPlaceholders("?") == {};
    assert FirstMissing(Stubborn(Prompt(issued, [item], Some("?"))).properties, [item]).None?;
    assert SourceTexts([item]) == map[item.key := item.text];
  }

  lemma {:induction false} Messages()
    ensures !IsPromptTimeout("?") && IsPromptTimeout("timed out")
  {
    assert ToLower("?") == "?";
    LowerStays("timed out");
    hide ToLower;
  }

  lemma {:induction false} LowerStays(s: string)
    requires forall i :: 0 <= i < |s| ==> !('A' <= s[i] <= 'Z')
    ensures ToLower(s) == s
  {
    if s != "" { LowerStays(s[1..]); }
  }

  lemma {:induction false} StubbornWastesTwo(items: seq<Item>, issued: nat)
    ensures Translate(Stubborn, items, issued) ==
      if |items| == 0 then Outcome(Err("timed out"), issued + 2)
      else if |items| == 1 then Outcome(Parse(Stubborn(Prompt(issued + 1, items, Some("?"))), items), issued + 2)
      else Split(Stubborn, items, issued + 2)
  {
    hide IsPromptTimeout, ExtractPlaceholders, IsBlank, SourceTexts;
    Messages();
    if |items| == 1 {
      StubbornAnswersOneItem(items[0], issued + 1);
      assert items == [items[0]];
    }
    hide Split;
    assert Translate(Stubborn, items, issued) == Attempt(Stubborn, items, issued + 1, 1, Some("?"), "?");
  }

  /** The bound is met: against this provider every batch takes exactly that many prompts, and succeeds
      unless it is empty. */
  lemma {:induction false} BoundIsReached(items: seq<Item>, issued: nat)
    ensures Translate(Stubborn, items, issued).result.Ok? <==> items != []
    ensures Translate(Stubborn, items, issued).issued == issued + MaxPrompts(|items|)
    decreases |items|
  {
    hide Translate, Stubborn, Parse;
    StubbornWastesTwo(items, issued);
    if |items| == 1 {
      StubbornAnswersOneItem(items[0], issued + 1);
      assert items == [items[0]];
    } else if |items| > 1 {
      var m := Midpoint(items);
      BoundIsReached(items[..m], issued + 2);
      BoundIsReached(items[m..], Translate(Stubborn, items[..m], issued + 2).issued);
    }
  }
}
