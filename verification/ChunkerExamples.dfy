/** Texts on which RecursiveTextChunker reaches its bounds. */
module ChunkerExamples {
  import opened Common
  import opened Texts
  import opened RecursiveChunking
  import ChunkerLaws

  // ---------------------------------------------------------------- which separator cuts

  /** A separator that does not occur passes the text on, but still applies the overlap. */
  lemma LevelPasses(cfg: Config, text: string, seps: seq<string>)
    requires cfg.Valid() && |text| > cfg.size && text != "" && |seps| >= 2
    requires seps[0] != "" && !Occurs(seps[0], text)
    ensures SplitText(cfg, text, seps) == Overlapped(SplitText(cfg, text, seps[1..]), cfg.overlap)
  {
    var finer := SplitText(cfg, text, seps[1..]);
    SplitAbsent(text, seps[0]);
    ChunkerLaws.PackOversized(cfg, [text], "", seps[0], seps[1..]);
    assert Pack(cfg, [text][1..], "", seps[0], seps[1..]) == [];
    assert [] + finer + [] == finer;
  }

  function OverlappedTimes(chunks: seq<string>, overlap: int, n: nat): seq<string> {
    if n == 0 then chunks else Overlapped(OverlappedTimes(chunks, overlap, n - 1), overlap)
  }

  lemma {:induction false} OverlappedMore(chunks: seq<string>, overlap: int, n: nat)
    ensures OverlappedTimes(Overlapped(chunks, overlap), overlap, n) == OverlappedTimes(chunks, overlap, n + 1)
  {
    if n > 0 {
      OverlappedMore(chunks, overlap, n - 1);
    }
  }

  lemma Lists()
    ensures SEPARATORS == ["\n\n", "\n", ". ", " ", ""]
    ensures SEPARATORS[1..] == ["\n", ". ", " ", ""]
    ensures ["\n", ". ", " ", ""][1..] == [". ", " ", ""]
    ensures [". ", " ", ""][1..] == [" ", ""]
    ensures [" ", ""][1..] == [""]
  {
  }

  /** The loop of _split over the parts of one separator, before the overlap. */
  function PackedBy(cfg: Config, text: string, sep: string, rest: seq<string>): seq<string>
    requires cfg.Valid() && sep != ""
  {
    Pack(cfg, Split(text, sep), "", sep, rest)
  }

  /** A text that does not fit is cut at paragraphs; without any, at lines; then at stops; then at spaces. */
  lemma SeparatorOrder(cfg: Config, text: string)
    requires cfg.Valid() && |text| > cfg.size && text != ""
    ensures var chunks := SplitText(cfg, text, SEPARATORS);
      && chunks == Overlapped(PackedBy(cfg, text, "\n\n", ["\n", ". ", " ", ""]), cfg.overlap)
      && (!Occurs("\n\n", text) ==>
            chunks == OverlappedTimes(PackedBy(cfg, text, "\n", [". ", " ", ""]), cfg.overlap, 2))
      && (!Occurs("\n", text) ==> chunks == OverlappedTimes(PackedBy(cfg, text, ". ", [" ", ""]), cfg.overlap, 3))
      && (!Occurs("\n", text) && !Occurs(". ", text) ==>
            chunks == OverlappedTimes(PackedBy(cfg, text, " ", [""]), cfg.overlap, 4))
  {
    Lists();
    if !Occurs("\n\n", text) {
      LevelPasses(cfg, text, SEPARATORS);
      OverlappedMore(PackedBy(cfg, text, "\n", [". ", " ", ""]), cfg.overlap, 1);
      TwoOverlaps(PackedBy(cfg, text, "\n", [". ", " ", ""]), cfg.overlap);
    }
    if !Occurs("\n", text) {
      NoNewlines(text);
      StopsPass(cfg, text);
      OverlappedMore(PackedBy(cfg, text, ". ", [" ", ""]), cfg.overlap, 2);
      if !Occurs(". ", text) {
        SpacesPass(cfg, text);
        OverlappedMore(PackedBy(cfg, text, " ", [""]), cfg.overlap, 3);
      }
    }
  }

  lemma TwoOverlaps(chunks: seq<string>, overlap: int)
    ensures Overlapped(Overlapped(chunks, overlap), overlap) == OverlappedTimes(chunks, overlap, 2)
  {
    assert OverlappedTimes(chunks, overlap, 1) == Overlapped(chunks, overlap);
  }

  lemma NoNewlines(text: string)
    requires !Occurs("\n", text)
    ensures !Occurs("\n\n", text)
  {
    if Occurs("\n\n", text) {
      OccursWithin("\n", "\n\n", "", "\n");
      OccursTransitive("\n", "\n\n", text);
    }
  }

  /** Down to the full stops. */
  lemma StopsPass(cfg: Config, text: string)
    requires cfg.Valid() && |text| > cfg.size && text != "" && !Occurs("\n", text)
    ensures SplitText(cfg, text, SEPARATORS) == OverlappedTimes(SplitText(cfg, text, [". ", " ", ""]), cfg.overlap, 2)
  {
    Lists();
    NoNewlines(text);
    LevelPasses(cfg, text, ["\n", ". ", " ", ""]);
    LevelPasses(cfg, text, SEPARATORS);
    TwoOverlaps(SplitText(cfg, text, [". ", " ", ""]), cfg.overlap);
  }

  /** Down to the spaces. */
  lemma SpacesPass(cfg: Config, text: string)
    requires cfg.Valid() && |text| > cfg.size && text != "" && !Occurs("\n", text) && !Occurs(". ", text)
    ensures SplitText(cfg, text, SEPARATORS) == OverlappedTimes(SplitText(cfg, text, [" ", ""]), cfg.overlap, 3)
  {
    var words := SplitText(cfg, text, [" ", ""]);
    Lists();
    StopsPass(cfg, text);
    LevelPasses(cfg, text, [". ", " ", ""]);
    OverlappedMore(words, cfg.overlap, 2);
  }

  lemma ThreeLevelsPass(cfg: Config, text: string)
    requires cfg.Valid() && |text| > cfg.size && text != "" && '\n' !in text && '.' !in text
    ensures SplitText(cfg, text, SEPARATORS) == OverlappedTimes(SplitText(cfg, text, [" ", ""]), cfg.overlap, 3)
  {
    AbsentCharacter("\n", text, '\n');
    AbsentCharacter(". ", text, '.');
    SpacesPass(cfg, text);
  }

  // ---------------------------------------------------------------- words that overlap

  /** Neither blanks nor full stops. */
  predicate IsWord(s: string) {
    s != "" && forall i | 0 <= i < |s| :: !IsSpace(s[i]) && s[i] != '.'
  }

  lemma SplitWords(a: string, b: string)
    requires ' ' !in a && ' ' !in b
    ensures Split(a + " " + b, " ") == [a, b]
  {
    assert " " == [' '];
    SplitAt(a, ' ', b);
    SplitWithout(b, " ", ' ');
  }

  ghost predicate AllWords(words: seq<string>, size: int) {
    forall i | 0 <= i < |words| :: IsWord(words[i]) && |words[i]| == size
  }

  lemma {:induction false} SplitJoined(words: seq<string>, size: int)
    requires words != [] && AllWords(words, size)
    ensures Split(Join(" ", words), " ") == words
  {
    assert " " == [' '];
    if |words| == 1 {
      SplitWithout(words[0], " ", ' ');
    } else {
      SplitJoined(words[1..], size);
      SplitAt(words[0], ' ', Join(" ", words[1..]));
      assert words == [words[0]] + words[1..];
    }
  }

  /** Words that fit, but no two of them together. */
  lemma {:induction false} PackWords(cfg: Config, current: string, words: seq<string>)
    requires cfg.Valid() && AllWords(words, cfg.size) && IsWord(current) && |current| == cfg.size
    ensures Pack(cfg, words, current, " ", [""]) == [current] + words
    decreases |words|
  {
    if words != [] {
      PackWords(cfg, words[0], words[1..]);
      assert words == [words[0]] + words[1..];
    }
  }

  lemma {:induction false} JoinedIsLong(words: seq<string>, size: int)
    requires words != [] && AllWords(words, size)
    ensures |Join(" ", words)| >= size && (|words| > 1 ==> |Join(" ", words)| > size)
    ensures forall c | c in Join(" ", words) :: c == ' ' || (!IsSpace(c) && c != '.')
    ensures Join(" ", words)[0] == words[0][0]
    ensures Join(" ", words)[|Join(" ", words)| - 1] == words[|words| - 1][size - 1]
  {
    if |words| > 1 {
      JoinedIsLong(words[1..], size);
    }
  }

  lemma WordsBySpaces(cfg: Config, words: seq<string>)
    requires cfg.Valid() && |words| > 1 && AllWords(words, cfg.size)
    ensures SplitText(cfg, Join(" ", words), [" ", ""]) == Overlapped(words, cfg.overlap)
  {
    assert [" ", ""][1..] == [""];
    JoinedIsLong(words, cfg.size);
    SplitJoined(words, cfg.size);
    PackWords(cfg, words[0], words[1..]);
    assert Pack(cfg, words, "", " ", [""]) == Pack(cfg, words[1..], words[0], " ", [""]);
    assert words == [words[0]] + words[1..];
  }

  function Repeated(s: string, n: nat): string {
    if n == 0 then "" else Repeated(s, n - 1) + s
  }

  /** Each word with n copies of the beginning of the next one. */
  function Tailed(words: seq<string>, overlap: nat, n: nat): (r: seq<string>)
    requires forall i | 0 <= i < |words| :: overlap <= |words[i]|
    ensures |r| == |words|
  {
    seq(|words|, i requires 0 <= i < |words| =>
      if i + 1 < |words| then words[i] + Repeated(words[i + 1][..overlap], n) else words[i])
  }

  lemma OverlapTails(words: seq<string>, overlap: nat, n: nat, chunks: seq<string>)
    requires forall i | 0 <= i < |words| :: overlap <= |words[i]|
    requires chunks == Tailed(words, overlap, n)
    ensures Overlapped(chunks, overlap) == Tailed(words, overlap, n + 1)
  {
    var a, b := Overlapped(chunks, overlap), Tailed(words, overlap, n + 1);
    forall i | 0 <= i < |words| ensures a[i] == b[i] {
      if i + 1 < |words| {
        OneMoreTail(words[i], words[i + 1][..overlap], n);
        assert Take(chunks[i + 1], overlap) == words[i + 1][..overlap];
      }
    }
  }

  lemma OneMoreTail(word: string, t: string, n: nat)
    ensures word + Repeated(t, n) + t == word + Repeated(t, n + 1)
  {
  }

  lemma NoTails(words: seq<string>, overlap: nat)
    requires forall i | 0 <= i < |words| :: overlap <= |words[i]|
    ensures Tailed(words, overlap, 0) == words
  {
    forall i | 0 <= i < |words| ensures Tailed(words, overlap, 0)[i] == words[i] {
      assert i + 1 < |words| ==> Repeated(words[i + 1][..overlap], 0) == "";
    }
  }

  lemma NothingToStrip(cfg: Config, text: string)
    requires cfg.Valid() && text != "" && !IsSpace(text[0]) && !IsSpace(text[|text| - 1])
    ensures ChunksOf(cfg, text) == Filtered(SplitText(cfg, text, SEPARATORS))
  {
    StripKeeps(text);
  }

  lemma {:induction false} KeepAll(chunks: seq<string>)
    requires forall i | 0 <= i < |chunks| :: NotBlank(chunks[i])
    ensures Filtered(chunks) == chunks
  {
    if chunks != [] {
      var n := |chunks| - 1;
      KeepAll(chunks[..n]);
      assert chunks == chunks[..n] + [chunks[n]];
    }
  }

  lemma WordsAreKept(chunks: seq<string>)
    requires forall i | 0 <= i < |chunks| :: IsWord(chunks[i])
    ensures Filtered(chunks) == chunks
  {
    forall i | 0 <= i < |chunks| ensures NotBlank(chunks[i]) {
      assert !IsSpace(chunks[i][0]);
    }
    KeepAll(chunks);
  }

  lemma FourCopies(s: string)
    ensures Repeated(s, 4) == s + s + s + s
  {
    assert Repeated(s, 1) == s;
    assert Repeated(s, 2) == s + s;
    assert Repeated(s, 3) == s + s + s;
  }

  lemma TailedWordsAreKept(words: seq<string>, size: nat, overlap: nat, n: nat)
    requires AllWords(words, size) && overlap <= size
    ensures Filtered(Tailed(words, overlap, n)) == Tailed(words, overlap, n)
  {
    var chunks := Tailed(words, overlap, n);
    forall i | 0 <= i < |chunks| ensures NotBlank(chunks[i]) {
      assert chunks[i][0] == words[i][0];
    }
    KeepAll(chunks);
  }

  lemma {:induction false} OverlapsAreTails(words: seq<string>, overlap: nat, n: nat)
    requires forall i | 0 <= i < |words| :: overlap <= |words[i]|
    ensures OverlappedTimes(words, overlap, n) == Tailed(words, overlap, n)
  {
    if n == 0 {
      NoTails(words, overlap);
    } else {
      var before := OverlappedTimes(words, overlap, n - 1);
      OverlapsAreTails(words, overlap, n - 1);
      OverlapTails(words, overlap, n - 1, before);
      assert OverlappedTimes(words, overlap, n) == Overlapped(before, overlap);
    }
  }

  lemma SplitIsTailed(cfg: Config, words: seq<string>)
    requires 0 <= cfg.overlap < cfg.size && |words| > 1 && AllWords(words, cfg.size)
    ensures SplitText(cfg, Join(" ", words), SEPARATORS) == Tailed(words, cfg.overlap, 4)
  {
    JoinedIsLong(words, cfg.size);
    WordsBySpaces(cfg, words);
    ThreeLevelsPass(cfg, Join(" ", words));
    OverlappedMore(words, cfg.overlap, 3);
    OverlapsAreTails(words, cfg.overlap, 4);
  }

  lemma ChunksAreTailed(cfg: Config, words: seq<string>)
    requires 0 <= cfg.overlap < cfg.size && |words| > 1 && AllWords(words, cfg.size)
    ensures ChunksOf(cfg, Join(" ", words)) == Tailed(words, cfg.overlap, 4)
  {
    var text := Join(" ", words);
    JoinedIsLong(words, cfg.size);
    assert IsWord(words[0]) && IsWord(words[|words| - 1]);
    NothingToStrip(cfg, text);
    SplitIsTailed(cfg, words);
    TailedWordsAreKept(words, cfg.size, cfg.overlap, 4);
  }

  /**
   Of words of chunk_size characters each is a chunk, and each but the last is followed by the
   beginning of the next word four times: once for every separator, whether it occurs or not.
   */
  lemma WordsOverlap(size: nat, overlap: nat, words: seq<string>)
    requires overlap < size && |words| > 1 && AllWords(words, size)
    ensures var chunks := ChunksOf(Config(size, overlap), Join(" ", words));
      && |chunks| == |words| && chunks[|words| - 1] == words[|words| - 1]
      && forall i | 0 <= i < |words| - 1 ::
           var t := words[i + 1][..overlap];
           chunks[i] == words[i] + (t + t + t + t)
  {
    ChunksAreTailed(Config(size, overlap), words);
    forall i | 0 <= i < |words| - 1
      ensures Tailed(words, overlap, 4)[i] == words[i] + (var t := words[i + 1][..overlap]; t + t + t + t)
    {
      FourCopies(words[i + 1][..overlap]);
    }
  }

  function Times(c: char, n: nat): string {
    seq(n, _ => c)
  }

  /** So the bound of ChunkSizes is reached for every size and overlap. */
  lemma LongestChunk(size: nat, overlap: nat) returns (text: string)
    requires overlap < size
    ensures var chunks := ChunksOf(Config(size, overlap), text);
      chunks != [] && |chunks[0]| == size + 4 * overlap
  {
    var words := [Times('a', size), Times('b', size)];
    WordsOverlap(size, overlap, words);
    text := Join(" ", words);
  }

  // ---------------------------------------------------------------- a text that is emitted twice

  lemma {:induction false} NoOverlap(chunks: seq<string>, n: nat)
    ensures OverlappedTimes(chunks, 0, n) == chunks
  {
    if n > 0 {
      NoOverlap(chunks, n - 1);
      assert forall i | 0 <= i < |chunks| - 1 :: chunks[i] + Take(chunks[i + 1], 0) == chunks[i];
    }
  }

  lemma {:induction false} WindowsAreWords(cfg: Config, text: string, start: nat)
    requires cfg.Valid() && cfg.overlap == 0 && IsWord(text)
    ensures forall i | 0 <= i < |Windows(cfg, text, start)| :: IsWord(Windows(cfg, text, start)[i])
    decreases |text| - start
  {
    if start < |text| {
      WindowsAreWords(cfg, text, start + cfg.size);
      assert IsWord(Slice(text, start, start + cfg.size));
    }
  }

  lemma PackShortAndLong(cfg: Config, a: string, b: string)
    requires cfg.Valid() && a != "" && |a| <= cfg.size < |b|
    ensures Pack(cfg, [a, b], "", " ", [""]) == [a] + HardPieces(cfg, b) + [a]
  {
    assert [a, b][1..] == [b] && [b][1..] == [];
    assert Pack(cfg, [], a, " ", [""]) == [a];
    ChunkerLaws.PackOversized(cfg, [b], a, " ", [""]);
    assert SplitText(cfg, b, [""]) == HardPieces(cfg, b);
  }

  lemma SplitShortAndLong(cfg: Config, a: string, b: string)
    requires cfg.Valid() && cfg.overlap == 0 && IsWord(a) && IsWord(b) && |a| <= cfg.size < |b|
    ensures SplitText(cfg, a + " " + b, SEPARATORS) == [a] + HardPieces(cfg, b) + [a]
  {
    var packed := [a] + HardPieces(cfg, b) + [a];
    assert [" ", ""][1..] == [""];
    SplitWords(a, b);
    PackShortAndLong(cfg, a, b);
    NoOverlap(packed, 3);
    OverlappedMore(packed, 0, 3);
    NoOverlap(packed, 4);
    NoNewline(a, b);
    ThreeLevelsPass(cfg, a + " " + b);
  }

  lemma NoNewline(a: string, b: string)
    requires IsWord(a) && IsWord(b)
    ensures '\n' !in a + " " + b && '.' !in a + " " + b
  {
  }

  /** A short word in front of one that does not fit is a chunk before it and again behind it. */
  lemma WordIsEmittedTwice(size: nat, a: string, b: string)
    requires IsWord(a) && IsWord(b) && |a| <= size < |b|
    ensures ChunksOf(Config(size, 0), a + " " + b) == [a] + HardPieces(Config(size, 0), b) + [a]
  {
    var cfg, text := Config(size, 0), a + " " + b;
    assert text[0] == a[0] && text[|text| - 1] == b[|b| - 1];
    NothingToStrip(cfg, text);
    SplitShortAndLong(cfg, a, b);
    WindowsAreWords(cfg, b, 0);
    WordsAreKept([a] + HardPieces(cfg, b) + [a]);
  }

  // ---------------------------------------------------------------- a full stop that is lost

  lemma PackTwo(cfg: Config, a: string, b: string, sep: string, rest: seq<string>)
    requires cfg.Valid() && a != "" && |a| <= cfg.size && |b| <= cfg.size && b != "" && |a + sep + b| > cfg.size
    ensures Pack(cfg, [a, b], "", sep, rest) == [a, b]
  {
    assert [a, b][1..] == [b] && [b][1..] == [];
    assert Pack(cfg, [], b, sep, rest) == [b];
    assert Pack(cfg, [b], a, sep, rest) == [a] + [b];
  }

  lemma SplitStops(a: string, b: string)
    requires IsWord(a) && IsWord(b)
    ensures Split(a + ". " + (b + "."), ". ") == [a, b + "."]
  {
    SplitAtSeparator(a, ". ", b + ".");
    SplitWithout(a, ". ", '.');
    SplitWithout(b, ". ", '.');
    SplitPush(b, '.', ". ");
    assert b + "." == b + ['.'];
    assert GrowLast([b], ['.'], []) == [b + "."];
  }

  lemma SplitTwoSentences(cfg: Config, a: string, b: string)
    requires cfg.Valid() && cfg.overlap == 0 && IsWord(a) && IsWord(b)
    requires |a| <= cfg.size && |b| < cfg.size && |a| + |b| + 3 > cfg.size
    ensures SplitText(cfg, a + ". " + (b + "."), SEPARATORS) == [a, b + "."]
  {
    var text := a + ". " + (b + ".");
    SplitStops(a, b);
    PackTwo(cfg, a, b + ".", ". ", [" ", ""]);
    assert '\n' !in text;
    AbsentCharacter("\n", text, '\n');
    SeparatorOrder(cfg, text);
    NoOverlap([a, b + "."], 3);
  }

  /** Two sentences that do not fit together are cut between the full stop and the space, and both go. */
  lemma FullStopIsLost(size: nat, a: string, b: string)
    requires IsWord(a) && IsWord(b) && |a| <= size && |b| < size && |a| + |b| + 3 > size
    ensures ChunksOf(Config(size, 0), a + ". " + (b + ".")) == [a, b + "."]
  {
    var text := a + ". " + (b + ".");
    SplitTwoSentences(Config(size, 0), a, b);
    assert text[0] == a[0] && text[|text| - 1] == '.';
    NothingToStrip(Config(size, 0), text);
    assert !IsSpace(a[0]) && !IsSpace((b + ".")[|b|]);
    KeepAll([a, b + "."]);
  }
}
