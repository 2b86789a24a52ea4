/** Translation (translate.py): the transcript is cut into fixed-size chunks, each chunk is
    translated by Amazon Translate or by a Bedrock completion, and the translated chunks are
    joined with single spaces. The services are parameters: a function from a chunk and the two
    language codes to its translation, and a function from a prompt to the model's completion. */
module Translate {
  import opened Text
  import opened Arith
  import opened SentenceWindows

  /** The chunk size for Amazon Translate (its request limit is 10,000 characters). */
  const AmazonChunkSize: nat := 9000

  /** The chunk size for a Bedrock prompt. */
  const BedrockChunkSize: nat := 4000

  /** The prefix a completion may repeat from the prompt. */
  const AssistantPrefix: string := "Assistant:"

  /** `[text[i:i+size] for i in range(0, len(text), size)]`. */
  function Chunks(text: string, size: nat): seq<string>
    requires size > 0
    decreases |text|
  {
    if text == [] then []
    else if |text| <= size then [text]
    else [text[..size]] + Chunks(text[size..], size)
  }

  /** The chunk loop's output: one service answer per chunk, in chunk order. */
  function Translations(chunks: seq<string>, answer: string -> string): (r: seq<string>)
    ensures |r| == |chunks|
  {
    seq(|chunks|, i requires 0 <= i < |chunks| => answer(chunks[i]))
  }

  /** `translate_with_amazon_translate`: chunks of 9000 characters, each translated, joined with a space. */
  function AmazonTranslate(text: string, source: string, target: string,
                           service: (string, string, string) -> string): string
  {
    JoinSpace(Translations(Chunks(text, AmazonChunkSize), c => service(c, source, target)))
  }

  /** The language names the Bedrock prompt uses. */
  const LanguageNames: map<string, string> := map[
    "en" := "English", "zh" := "Chinese", "ja" := "Japanese", "fr" := "French", "de" := "German",
    "it" := "Italian", "ko" := "Korean", "pt" := "Portuguese", "es" := "Spanish"]

  /** `language_map.get(code, "English")`. */
  function LanguageName(code: string): string {
    if code in LanguageNames then LanguageNames[code] else "English"
  }

  /** The Human/Assistant prompt sent to the model for one chunk. */
  function Prompt(sourceName: string, targetName: string, chunk: string): string {
    "Human: Translate the following " + sourceName + " text to " + targetName
    + ". Only provide the translation, without any additional text or explanations:\n\n"
    + chunk + "\n\nAssistant:"
  }

  /** The completion, stripped, with one leading `Assistant:` removed and the rest stripped again. */
  function CleanCompletion(completion: string): string {
    var t := Strip(completion);
    if StartsWith(t, AssistantPrefix) then Strip(t[|AssistantPrefix|..]) else t
  }

  /** What one Bedrock call contributes for a chunk. */
  function BedrockAnswer(sourceName: string, targetName: string, complete: string -> string, chunk: string): string {
    CleanCompletion(complete(Prompt(sourceName, targetName, chunk)))
  }

  /** `translate_with_bedrock`: chunks of 4000 characters, each sent in a prompt naming both languages. */
  function Bedrock(text: string, source: string, target: string, complete: string -> string): string {
    var sourceName := LanguageName(source);
    var targetName := LanguageName(target);
    JoinSpace(Translations(Chunks(text, BedrockChunkSize), c => BedrockAnswer(sourceName, targetName, complete, c)))
  }

  /** The dictionary `translate_text` returns. */
  datatype Translated = Translated(transcript: string, translated: string, words: seq<Word>,
                                   sourceLanguage: string, targetLanguage: string)

  // ---------------------------------------------------------------------------
  // The loops of the source

  /** The `for i, chunk in enumerate(chunks)` loop: one answer appended per chunk. */
  method TranslateChunks(chunks: seq<string>, answer: string -> string) returns (translated: seq<string>)
    ensures translated == Translations(chunks, answer)
  {
    translated := [];
    for i := 0 to |chunks|
      invariant |translated| == i
      invariant forall k :: 0 <= k < i ==> translated[k] == answer(chunks[k])
    {
      translated := translated + [answer(chunks[i])];
    }
  }

  method TranslateWithAmazonTranslate(text: string, source: string, target: string,
                                      service: (string, string, string) -> string)
    returns (translated: string)
    ensures translated == AmazonTranslate(text, source, target, service)
  {
    var chunks := Chunks(text, AmazonChunkSize);
    var parts := TranslateChunks(chunks, c => service(c, source, target));
    translated := JoinSpace(parts);
  }

  method TranslateWithBedrock(text: string, source: string, target: string, complete: string -> string)
    returns (translated: string)
    ensures translated == Bedrock(text, source, target, complete)
  {
    var sourceName := LanguageName(source);
    var targetName := LanguageName(target);
    var chunks := Chunks(text, BedrockChunkSize);
    var parts := TranslateChunks(chunks, c => BedrockAnswer(sourceName, targetName, complete, c));
    translated := JoinSpace(parts);
  }

  /** `translate_text`: Bedrock when a Bedrock client is present, Amazon Translate otherwise; the
      transcript, the words and both language codes are passed through unchanged. */
  method TranslateText(transcript: string, words: seq<Word>, source: string, target: string,
                       useBedrock: bool, service: (string, string, string) -> string,
                       complete: string -> string)
    returns (data: Translated)
    ensures data.transcript == transcript && data.words == words
    ensures data.sourceLanguage == source && data.targetLanguage == target
    ensures useBedrock ==> data.translated == Bedrock(transcript, source, target, complete)
    ensures !useBedrock ==> data.translated == AmazonTranslate(transcript, source, target, service)
  {
    var translated;
    if useBedrock {
      translated := TranslateWithBedrock(transcript, source, target, complete);
    } else {
      translated := TranslateWithAmazonTranslate(transcript, source, target, service);
    }
    data := Translated(transcript, translated, words, source, target);
  }

  /** `translate_content`: the older entry point, whose argument order puts the target language
      first. A Bedrock client that cannot be created is logged and Amazon Translate is used. */
  method TranslateContent(transcript: string, words: seq<Word>, target: string, source: string,
                          useBedrock: bool, bedrockAvailable: bool,
                          service: (string, string, string) -> string, complete: string -> string)
    returns (data: Translated)
    ensures data.sourceLanguage == source && data.targetLanguage == target
    ensures data.transcript == transcript && data.words == words
    ensures data.translated ==
      if useBedrock && bedrockAvailable then Bedrock(transcript, source, target, complete)
      else AmazonTranslate(transcript, source, target, service)
  {
    data := TranslateText(transcript, words, source, target, useBedrock && bedrockAvailable, service, complete);
  }

  // ---------------------------------------------------------------------------
  // Chunking

  /** The chunks partition the text: they concatenate back to it, none is empty, none is longer
      than the chunk size, every chunk but the last has exactly that size, and there are
      `ceil(len / size)` of them (none for an empty text). */
  lemma {:induction false} ChunksPartition(text: string, size: nat)
    requires size > 0
    ensures Concat(Chunks(text, size)) == text
    ensures forall i :: 0 <= i < |Chunks(text, size)| ==> 0 < |Chunks(text, size)[i]| <= size
    ensures forall i :: 0 <= i < |Chunks(text, size)| - 1 ==> |Chunks(text, size)[i]| == size
    ensures |Chunks(text, size)| == (|text| + size - 1) / size
  {
    ChunksConcat(text, size);
    ChunksSizes(text, size);
    ChunksCount(text, size);
  }

  lemma ChunksCons(text: string, size: nat)
    requires 0 < size < |text|
    ensures Chunks(text, size) == [text[..size]] + Chunks(text[size..], size)
  {
  }

  lemma {:induction false} ChunksConcat(text: string, size: nat)
    requires size > 0
    ensures Concat(Chunks(text, size)) == text
    decreases |text|
  {
    if text == [] {
    } else if |text| <= size {
      ConcatCons(text, []);
    } else {
      var rest := text[size..];
      ChunksConcat(rest, size);
      ChunksCons(text, size);
      ConcatCons(text[..size], Chunks(rest, size));
      TakeDrop(text, size);
    }
  }

  lemma {:induction false} ChunksSizes(text: string, size: nat)
    requires size > 0
    ensures forall i :: 0 <= i < |Chunks(text, size)| ==> 0 < |Chunks(text, size)[i]| <= size
    ensures forall i :: 0 <= i < |Chunks(text, size)| - 1 ==> |Chunks(text, size)[i]| == size
    decreases |text|
  {
    if |text| > size {
      var rest := text[size..];
      ChunksSizes(rest, size);
      ChunksCons(text, size);
      ConsSizes(text[..size], Chunks(rest, size), size);
    }
  }

  lemma ConsSizes(first: string, rest: seq<string>, size: nat)
    requires |first| == size > 0
    requires forall i :: 0 <= i < |rest| ==> 0 < |rest[i]| <= size
    requires forall i :: 0 <= i < |rest| - 1 ==> |rest[i]| == size
    ensures forall i :: 0 <= i < |[first] + rest| ==> 0 < |([first] + rest)[i]| <= size
    ensures forall i :: 0 <= i < |[first] + rest| - 1 ==> |([first] + rest)[i]| == size
  {
    forall i | 0 < i < |[first] + rest| ensures ([first] + rest)[i] == rest[i - 1] {}
  }

  lemma {:induction false} ChunksCount(text: string, size: nat)
    requires size > 0
    ensures |Chunks(text, size)| == (|text| + size - 1) / size
    decreases |text|
  {
    if text == [] {
      DivExact(size - 1, size, 0);
    } else if |text| <= size {
      DivExact(|text| + size - 1, size, 1);
    } else {
      var rest := text[size..];
      ChunksCount(rest, size);
      ChunksCons(text, size);
      var q := (|rest| + size - 1) / size;
      DivBounds(|rest| + size - 1, size);
      DivExact(|text| + size - 1, size, q + 1);
    }
  }

  /** Chunk `i` is the comprehension's `text[i*size : i*size + size]`, clipped to the text. */
  lemma {:induction false} ChunkAt(text: string, size: nat, i: nat)
    requires size > 0 && i < |Chunks(text, size)|
    ensures i * size < |text|
    ensures Chunks(text, size)[i] == text[i * size .. Min(|text|, i * size + size)]
    decreases |text|
  {
    if i > 0 {
      var rest := text[size..];
      assert Chunks(text, size)[i] == Chunks(rest, size)[i - 1];
      ChunkAt(rest, size, i - 1);
      assert (i - 1) * size + size == i * size;
    }
  }

  // ---------------------------------------------------------------------------
  // Joining the translated chunks

  /** An empty transcript is translated to the empty string without calling the service. */
  lemma EmptyTranslation(source: string, target: string,
                         service: (string, string, string) -> string, complete: string -> string)
    ensures AmazonTranslate([], source, target, service) == []
    ensures Bedrock([], source, target, complete) == []
  {
  }

  /** A transcript that fits one chunk gets the service's answer for the whole text, unjoined. */
  lemma SingleChunk(text: string, source: string, target: string,
                    service: (string, string, string) -> string, complete: string -> string)
    requires text != []
    ensures |text| <= AmazonChunkSize ==> AmazonTranslate(text, source, target, service) == service(text, source, target)
    ensures |text| <= BedrockChunkSize ==>
      Bedrock(text, source, target, complete)
        == CleanCompletion(complete(Prompt(LanguageName(source), LanguageName(target), text)))
  {
    if |text| <= AmazonChunkSize {
      JoinOneAnswer(text, AmazonChunkSize, c => service(c, source, target));
    }
    if |text| <= BedrockChunkSize {
      JoinOneAnswer(text, BedrockChunkSize, c => BedrockAnswer(LanguageName(source), LanguageName(target), complete, c));
    }
  }

  lemma JoinOneAnswer(text: string, size: nat, answer: string -> string)
    requires 0 < |text| <= size
    ensures JoinSpace(Translations(Chunks(text, size), answer)) == answer(text)
  {
    assert Chunks(text, size) == [text];
    assert Translations([text], answer) == [answer(text)];
  }

  /** The chunk answers are joined with one space each, in chunk order: when no answer contains a
      space, splitting the result on spaces gives back exactly one answer per chunk. */
  lemma JoinedInChunkOrder(text: string, source: string, target: string,
                           service: (string, string, string) -> string)
    requires text != []
    requires forall c :: ' ' !in service(c, source, target)
    ensures Split(AmazonTranslate(text, source, target, service), " ")
      == Translations(Chunks(text, AmazonChunkSize), c => service(c, source, target))
    ensures |Split(AmazonTranslate(text, source, target, service), " ")| == (|text| + AmazonChunkSize - 1) / AmazonChunkSize
  {
    var parts := Translations(Chunks(text, AmazonChunkSize), c => service(c, source, target));
    ChunksPartition(text, AmazonChunkSize);
    SplitJoinChar(parts, ' ');
  }

  // ---------------------------------------------------------------------------
  // The Bedrock answer

  /** Every code of the table has its own name, and only "en" and unknown codes read as English. */
  lemma LanguageNameDefault(code: string)
    ensures LanguageName(code) == "English" <==> code == "en" || code !in LanguageNames
    ensures code in LanguageNames ==> LanguageName(code) == LanguageNames[code]
  {
  }

  /** The prompt names the model's turn last and carries the chunk right before it. */
  lemma PromptShape(sourceName: string, targetName: string, chunk: string)
    ensures StartsWith(Prompt(sourceName, targetName, chunk), "Human: ")
    ensures var p := Prompt(sourceName, targetName, chunk);
      |p| >= |chunk| + 12 && p[|p| - |chunk| - 12..] == chunk + "\n\nAssistant:"
  {
  }

  /** A cleaned completion never begins or ends with a blank, and a completion that does not start
      with `Assistant:` (after stripping) is only stripped. */
  lemma CleanCompletionStripped(completion: string)
    ensures Stripped(CleanCompletion(completion))
    ensures !StartsWith(Strip(completion), AssistantPrefix) ==> CleanCompletion(completion) == Strip(completion)
  {
    var t := Strip(completion);
    StripShape(completion);
    if StartsWith(t, AssistantPrefix) {
      StripShape(t[|AssistantPrefix|..]);
    }
  }

  lemma StripSpaceCons(x: string)
    requires Stripped(x)
    ensures Strip(" " + x) == x
  {
    assert SpanSpace(" " + x) == 1 + SpanSpace(x);
    StrippedStrip(x);
    assert (" " + x)[1..] == x;
  }

  /** The prefix is removed: an answer written after `Assistant: ` comes back as it is. */
  lemma {:induction false} CleanCompletionPrefix(x: string)
    requires Stripped(x)
    ensures CleanCompletion("Assistant: " + x) == x
  {
    var s := "Assistant: " + x;
    if x == [] {
      assert TrimEnd(s) == AssistantPrefix;
      assert Strip(s) == AssistantPrefix;
    } else {
      assert Stripped(s);
      StrippedStrip(s);
      assert StartsWith(s, AssistantPrefix);
      assert s[|AssistantPrefix|..] == " " + x;
      StripSpaceCons(x);
    }
  }

  /** The prefix is removed only once: a doubled `Assistant:` leaves the second one in place. */
  lemma CleanCompletionOnce(x: string)
    requires Stripped(x) && x != []
    ensures CleanCompletion("Assistant: " + ("Assistant: " + x)) == "Assistant: " + x
  {
    var y := "Assistant: " + x;
    assert y[0] == 'A' && y[|y| - 1] == x[|x| - 1];
    CleanCompletionPrefix(y);
  }
}
