/** Transcription (transcribe.py): how the job is requested, and how the service's result
    document becomes the transcript text, the timed word list and the language tag. The job
    itself, its polling and the download of the result are the service's; their outcome is
    a parameter. */
module Transcribe {
  import opened Wrappers
  import opened SentenceWindows

  /** How the transcription job is started: with a fixed language, or with language identification. */
  datatype LanguageRequest = Fixed(code: string) | Identify

  /** ASCII lower-casing; no other character lower-cases to one of the letters of `auto`. */
  function LowerChar(c: char): char {
    if 'A' <= c <= 'Z' then (c as int + 32) as char else c
  }

  function Lower(s: string): (r: string)
    ensures |r| == |s|
  {
    seq(|s|, i requires 0 <= i < |s| => LowerChar(s[i]))
  }

  /** `language_code and language_code.lower() != 'auto'` decides a fixed-language job. */
  function RequestFor(languageCode: Option<string>): LanguageRequest {
    if languageCode.Some? && languageCode.value != [] && Lower(languageCode.value) != "auto"
    then Fixed(languageCode.value)
    else Identify
  }

  /** `s` spells `auto` in some mix of letter cases. */
  predicate SpellsAuto(s: string) {
    |s| == 4 && s[0] in "aA" && s[1] in "uU" && s[2] in "tT" && s[3] in "oO"
  }

  /** One entry of the result's `items`: its type, its alternatives' contents, and the optional
      `start_time` / `end_time` (already read as numbers). */
  datatype Item = Item(kind: string, alternatives: seq<string>, startTime: Option<real>, endTime: Option<real>)

  /** The parts of the downloaded result document the code reads: `results.transcripts`, the
      optional `results.language_code`, and the optional `results.items`. */
  datatype Results = Results(transcripts: seq<string>, languageCode: Option<string>, items: Option<seq<Item>>)

  /** The final job status the polling loop stops at. */
  datatype JobStatus = Completed(results: Results) | Failed(reason: Option<string>)

  /** The dictionary `transcribe_video` returns. */
  datatype Transcription = Transcription(transcript: string, words: seq<Word>, detectedLanguage: Option<string>)

  predicate IsPronunciation(item: Item) {
    item.kind == "pronunciation"
  }

  /** The word record of a pronunciation item that has an alternative; absent times read as 0. */
  function WordOf(item: Item): Word
    requires item.alternatives != []
  {
    Word(item.alternatives[0], item.startTime.GetOr(0.0), item.endTime.GetOr(0.0))
  }

  /** The item loop: pronunciation items become words in order; one without alternatives raises. */
  function ExtractWords(items: seq<Item>): Result<seq<Word>> {
    if items == [] then Ok([])
    else
      var prefix := ExtractWords(items[..|items| - 1]);
      var item := items[|items| - 1];
      if prefix.Err? then prefix
      else if !IsPronunciation(item) then prefix
      else if item.alternatives == [] then Err(MissingAlternative)
      else Ok(prefix.value + [WordOf(item)])
  }

  /** `transcribe_video` from the final job status on: a failed job raises, then the first transcript,
      the detected language (falling back to the requested code) and the words are read. */
  function TranscribeResult(status: JobStatus, languageCode: Option<string>): Result<Transcription> {
    if status.Failed? then Err(JobFailed)
    else
      var results := status.results;
      if results.transcripts == [] then Err(MissingTranscript)
      else
        var detected := if results.languageCode.Some? then results.languageCode else languageCode;
        var words := ExtractWords(results.items.GetOr([]));
        if words.Err? then Err(words.error)
        else Ok(Transcription(results.transcripts[0], words.value, detected))
  }

  // ---------------------------------------------------------------------------
  // The loop of the source

  /** `for item in transcript_data['results'].get('items', [])`, appending a word per pronunciation item. */
  method CollectWords(items: seq<Item>) returns (r: Result<seq<Word>>)
    ensures r == ExtractWords(items)
  {
    var words: seq<Word> := [];
    for i := 0 to |items|
      invariant ExtractWords(items[..i]) == Ok(words)
    {
      assert items[..i + 1][..i] == items[..i];
      var item := items[i];
      if IsPronunciation(item) {
        if item.alternatives == [] {
          assert ExtractWords(items[..i + 1]) == Err(MissingAlternative);
          ErrorPersists(items, i + 1);
          return Err(MissingAlternative);
        }
        words := words + [WordOf(item)];
      }
    }
    assert items[..|items|] == items;
    r := Ok(words);
  }

  method TranscribeVideo(status: JobStatus, languageCode: Option<string>) returns (r: Result<Transcription>)
    ensures r == TranscribeResult(status, languageCode)
  {
    if status.Failed? {
      return Err(JobFailed);
    }
    var results := status.results;
    if results.transcripts == [] {
      return Err(MissingTranscript);
    }
    var transcript := results.transcripts[0];
    var detected := languageCode;
    if results.languageCode.Some? {
      detected := results.languageCode;
    }
    var words := CollectWords(results.items.GetOr([]));
    if words.Err? {
      return Err(words.error);
    }
    r := Ok(Transcription(transcript, words.value, detected));
  }

  // ---------------------------------------------------------------------------
  // Properties

  /** Language identification is requested exactly when no code is given, the code is empty, or it
      spells `auto` in any letter case; otherwise the job is started with the given code. */
  lemma RequestForSpec(languageCode: Option<string>)
    ensures RequestFor(languageCode) == Identify <==>
      languageCode == None || languageCode == Some("") || SpellsAuto(languageCode.value)
    ensures RequestFor(languageCode).Fixed? ==> RequestFor(languageCode).code == languageCode.value
  {
    if languageCode.Some? && languageCode.value != [] {
      LowerIsAuto(languageCode.value);
    }
  }

  lemma LowerIsAuto(s: string)
    ensures Lower(s) == "auto" <==> SpellsAuto(s)
  {
    if |s| == 4 {
      assert Lower(s)[0] == LowerChar(s[0]);
      assert Lower(s)[1] == LowerChar(s[1]);
      assert Lower(s)[2] == LowerChar(s[2]);
      assert Lower(s)[3] == LowerChar(s[3]);
    }
  }

  /** The pronunciation items, in order: the reference for the words the loop collects. */
  function Pronunciations(items: seq<Item>): seq<Item> {
    if items == [] then []
    else (if IsPronunciation(items[0]) then [items[0]] else []) + Pronunciations(items[1..])
  }

  predicate AllAnswered(items: seq<Item>) {
    forall k :: 0 <= k < |items| ==> items[k].alternatives != []
  }

  lemma {:induction false} PronunciationsSnoc(items: seq<Item>, item: Item)
    ensures Pronunciations(items + [item]) == Pronunciations(items) + (if IsPronunciation(item) then [item] else [])
  {
    if items != [] {
      assert (items + [item])[1..] == items[1..] + [item];
      PronunciationsSnoc(items[1..], item);
    } else {
      assert Pronunciations([item]) == (if IsPronunciation(item) then [item] else []) + Pronunciations([]);
    }
  }

  lemma ErrorPersists(items: seq<Item>, n: nat)
    requires n <= |items| && ExtractWords(items[..n]).Err?
    ensures ExtractWords(items) == ExtractWords(items[..n])
    decreases |items| - n
  {
    if n < |items| {
      assert items[..n + 1][..n] == items[..n];
      ErrorPersists(items, n + 1);
    } else {
      assert items[..n] == items;
    }
  }

  /** The loop succeeds exactly when every pronunciation item has an alternative; it then yields one
      word per pronunciation item, in item order, with the first alternative as its text and the
      item's times (0 when absent). Other items are skipped. */
  lemma {:induction false} ExtractWordsSpec(items: seq<Item>)
    ensures ExtractWords(items).Ok? <==> AllAnswered(Pronunciations(items))
    ensures ExtractWords(items).Err? ==> ExtractWords(items).error == MissingAlternative
    ensures ExtractWords(items).Ok? ==>
      |ExtractWords(items).value| == |Pronunciations(items)| &&
      forall k :: 0 <= k < |Pronunciations(items)| ==>
        ExtractWords(items).value[k] == WordOf(Pronunciations(items)[k])
  {
    if items != [] {
      var prefix := items[..|items| - 1];
      var item := items[|items| - 1];
      assert items == prefix + [item];
      ExtractWordsSpec(prefix);
      PronunciationsSnoc(prefix, item);
      var ps := Pronunciations(prefix);
      if IsPronunciation(item) {
        assert AllAnswered(ps + [item]) <==> AllAnswered(ps) && item.alternatives != [] by {
          if AllAnswered(ps + [item]) {
            forall k | 0 <= k < |ps| ensures ps[k].alternatives != [] {
              assert (ps + [item])[k] == ps[k];
            }
            assert (ps + [item])[|ps|] == item;
          }
        }
      } else {
        assert ps + [] == ps;
      }
    }
  }

  /** A completed job yields the first transcript and the result's language, or the requested code
      when the result names none; a failed job or a result without transcripts raises. */
  lemma TranscribeResultSpec(status: JobStatus, languageCode: Option<string>)
    ensures status.Failed? ==> TranscribeResult(status, languageCode) == Err(JobFailed)
    ensures status.Completed? && status.results.transcripts == [] ==>
      TranscribeResult(status, languageCode) == Err(MissingTranscript)
    ensures TranscribeResult(status, languageCode).Ok? <==>
      status.Completed? && status.results.transcripts != [] &&
      AllAnswered(Pronunciations(status.results.items.GetOr([])))
    ensures TranscribeResult(status, languageCode).Ok? ==>
      var t := TranscribeResult(status, languageCode).value;
      t.transcript == status.results.transcripts[0] &&
      t.detectedLanguage == (if status.results.languageCode.Some? then status.results.languageCode else languageCode) &&
      |t.words| == |Pronunciations(status.results.items.GetOr([]))|
  {
    if status.Completed? {
      ExtractWordsSpec(status.results.items.GetOr([]));
    }
  }
}
