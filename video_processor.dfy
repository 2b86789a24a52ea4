/** Subtitle post-processing in video_processor.py: the line wrapping of `format_subtitle_text`,
    the block clean-up of `format_srt_file`, and the font size `process_locally` computes (and
    never uses). Reading and writing the
    files, ffmpeg and the S3 transfers are external. */
module VideoProcessor {
  import opened Text
  import opened Wrappers
  import opened Arith
  import opened DisplayFormat
  import opened SentenceMatching

  // ---------------------------------------------------------------------------
  // format_subtitle_text

  /** The default `max_line_length` of `format_subtitle_text`. */
  const SubtitleLineLength: int := 40

  /** `format_subtitle_text(text, m)`: short text as it is, else the greedy wrap of its words,
      one line per `\n`. */
  function FormatSubtitleText(text: string, m: int): string {
    if |text| <= m then text else Join("\n", Wrap(Words(text), m))
  }

  /** `format_subtitle_text`: the same greedy loop as `format_sentence_for_display`. */
  method FormatSubtitle(text: string, m: int) returns (r: string)
    ensures r == FormatSubtitleText(text, m)
  {
    if |text| <= m {
      return text;
    }
    var words := Words(text);
    var lines := WrapTokens(words, m);
    r := Join("\n", lines);
  }

  // ---------------------------------------------------------------------------
  // format_srt_file

  /** A block of at least three lines keeps its number, its timing and at most two text lines;
      a shorter block is dropped. */
  function FormatBlock(block: string): Option<string> {
    var lines := Split(block, "\n");
    if |lines| >= 3 then
      var textLines := if |lines| - 2 > 2 then lines[2..4] else lines[2..];
      Some(lines[0] + "\n" + lines[1] + "\n" + Join("\n", textLines))
    else None
  }

  /** The formatted blocks of `blocks`, in order. */
  function FormattedBlocks(blocks: seq<string>): seq<string> {
    if blocks == [] then []
    else
      var before := FormattedBlocks(blocks[..|blocks| - 1]);
      match FormatBlock(blocks[|blocks| - 1])
      case None => before
      case Some(b) => before + [b]
  }

  /** What `format_srt_file` writes for a file's content. */
  function FormatSrt(content: string): string {
    Join("\n\n", FormattedBlocks(Split(Strip(content), "\n\n")))
  }

  /** The block loop of `format_srt_file`; reading and writing the files are left out. */
  method FormatSrtContent(content: string) returns (output: string)
    ensures output == FormatSrt(content)
  {
    var blocks := Split(Strip(content), "\n\n");
    var formattedBlocks: seq<string> := [];
    for i := 0 to |blocks|
      invariant formattedBlocks == FormattedBlocks(blocks[..i])
    {
      assert blocks[..i + 1][..i] == blocks[..i];
      var lines := Split(blocks[i], "\n");
      if |lines| >= 3 {
        var subtitleNum := lines[0];
        var timing := lines[1];
        var textLines := lines[2..];
        if |textLines| > 2 {
          textLines := textLines[..2];
          assert textLines == lines[2..4];
        }
        formattedBlocks := formattedBlocks + [subtitleNum + "\n" + timing + "\n" + Join("\n", textLines)];
      }
    }
    assert blocks[..|blocks|] == blocks;
    output := Join("\n\n", formattedBlocks);
  }

  // ---------------------------------------------------------------------------
  // Font size

  /** `max(16, min(24, int(h / 25)))`: the font size `process_locally` computes for a video `h`
      pixels high. No ffmpeg call receives it. */
  function FontSize(height: int): int {
    Max(16, Min(24, Trunc(height as real / 25.0)))
  }

  // ---------------------------------------------------------------------------
  // Properties: format_subtitle_text

  /** Words joined by spaces contain no line break. */
  lemma {:induction false} JoinWordsNoNewline(g: seq<string>)
    requires IsWords(g)
    ensures '\n' !in JoinSpace(g)
  {
    if |g| > 1 {
      assert IsWords(g[1..]) by {
        forall j | 0 <= j < |g[1..]| ensures g[1..][j] != [] && NoSpace(g[1..][j]) {
          assert g[1..][j] == g[j + 1];
        }
      }
      JoinWordsNoNewline(g[1..]);
      assert JoinSpace(g) == g[0] + " " + JoinSpace(g[1..]);
      assert NoSpace(g[0]);
    } else if |g| == 1 {
      assert NoSpace(g[0]);
    }
  }

  /** Short text is returned as it is. Longer text becomes the greedy wrap of its words, one line
      per `\n` with no limit on the number of lines: the words of the lines are the text's words in
      order, a line of two or more words is at most `m` long, and a line longer than `m` is a
      single word of the text. */
  lemma FormatSubtitleTextSpec(text: string, m: int)
    ensures |text| <= m ==> FormatSubtitleText(text, m) == text
    ensures |text| > m ==>
      var lines := FormatForDisplay(text, m, None);
      FormatSubtitleText(text, m) == Join("\n", lines)
      && (lines != [] ==> Split(FormatSubtitleText(text, m), "\n") == lines)
      && Concat(LineWords(lines)) == Words(text)
      && (forall i :: 0 <= i < |lines| && |Words(lines[i])| >= 2 ==> |lines[i]| <= m)
      && (forall i :: 0 <= i < |lines| && |lines[i]| > m ==> lines[i] != [] && NoSpace(lines[i]))
  {
    if |text| > m {
      var lines := FormatForDisplay(text, m, None);
      DisplayKeepsWords(text, m, None);
      DisplayLong(text, m, None);
      WordsShape(text);
      var gs := WrapGroups(Words(text), m);
      assert lines == JoinAll(gs);
      forall i | 0 <= i < |lines| ensures '\n' !in lines[i] {
        ConcatPartIn(gs, i);
        JoinWordsNoNewline(gs[i]);
      }
      if lines != [] {
        SplitJoinChar(lines, '\n');
      }
      forall i | 0 <= i < |lines| && |lines[i]| > m ensures lines[i] != [] && NoSpace(lines[i]) {
        ConcatPartIn(gs, i);
        assert |gs[i]| == 1;
        assert lines[i] == gs[i][0];
      }
    }
  }

  // ---------------------------------------------------------------------------
  // Properties: format_srt_file

  lemma JoinFirstTwo(sep: string, parts: seq<string>)
    requires |parts| >= 3
    ensures Join(sep, parts) == parts[0] + sep + parts[1] + sep + Join(sep, parts[2..])
  {
    assert parts[1..][1..] == parts[2..];
  }

  /** The lines a block keeps: all of them up to four. */
  function KeptLines(block: string): nat {
    Min(4, |Split(block, "\n")|)
  }

  /** A block is kept exactly when it has at least three lines; what is kept is its first four lines
      at most (its number, its timing and up to two text lines), verbatim and in order; a block of
      three or four lines is kept unchanged. */
  lemma FormatBlockSpec(block: string)
    ensures FormatBlock(block).Some? <==> |Split(block, "\n")| >= 3
    ensures FormatBlock(block).Some? ==>
      Split(FormatBlock(block).value, "\n") == Split(block, "\n")[..KeptLines(block)]
    ensures FormatBlock(block).Some? && |Split(block, "\n")| <= 4 ==> FormatBlock(block).value == block
  {
    var lines := Split(block, "\n");
    if |lines| >= 3 {
      var kept := lines[..KeptLines(block)];
      JoinFirstTwo("\n", kept);
      assert kept[2..] == if |lines| - 2 > 2 then lines[2..4] else lines[2..];
      assert FormatBlock(block).value == Join("\n", kept);
      SplitAvoids(block, '\n');
      assert Avoids(kept, '\n') by {
        forall i | 0 <= i < |kept| ensures '\n' !in kept[i] {
          assert kept[i] == lines[i];
        }
      }
      SplitJoinChar(kept, '\n');
      if |lines| <= 4 {
        assert kept == lines;
        JoinSplit(block, "\n");
      }
    }
  }

  /** Cleaning a cleaned block changes nothing. */
  lemma FormatBlockIdempotent(block: string)
    requires FormatBlock(block).Some?
    ensures FormatBlock(FormatBlock(block).value) == FormatBlock(block)
  {
    FormatBlockSpec(block);
    FormatBlockSpec(FormatBlock(block).value);
  }

  /** The loop keeps at most one block per input block, every block it keeps is already clean, and
      it leaves blocks of three or four lines exactly as they are. */
  lemma {:induction false} FormattedBlocksSpec(blocks: seq<string>)
    ensures |FormattedBlocks(blocks)| <= |blocks|
    ensures forall j :: 0 <= j < |FormattedBlocks(blocks)| ==>
      FormatBlock(FormattedBlocks(blocks)[j]) == Some(FormattedBlocks(blocks)[j])
    ensures (forall i :: 0 <= i < |blocks| ==> 3 <= |Split(blocks[i], "\n")| <= 4) ==>
      FormattedBlocks(blocks) == blocks
  {
    if blocks != [] {
      var prefix := blocks[..|blocks| - 1];
      var last := blocks[|blocks| - 1];
      FormattedBlocksSpec(prefix);
      FormatBlockSpec(last);
      if FormatBlock(last).Some? {
        FormatBlockIdempotent(last);
      }
      if forall i :: 0 <= i < |blocks| ==> 3 <= |Split(blocks[i], "\n")| <= 4 {
        assert forall i :: 0 <= i < |prefix| ==> prefix[i] == blocks[i];
        assert blocks == prefix + [last];
      }
    }
  }

  // ---------------------------------------------------------------------------
  // Properties: font size

  /** The font size is always between 16 and 24, and is `h // 25` for heights from 400 to 624. */
  lemma FontSizeBounds(height: int)
    ensures 16 <= FontSize(height) <= 24
    ensures 400 <= height < 625 ==> FontSize(height) == height / 25
  {
    if 400 <= height < 625 {
      var q := height / 25;
      DivBounds(height, 25);
      var x := height as real / 25.0;
      assert q as real <= x < q as real + 1.0;
      assert x.Floor == q;
    }
  }
}
