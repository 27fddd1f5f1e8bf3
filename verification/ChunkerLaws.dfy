/** What RecursiveTextChunker guarantees: sizes, coverage, and optimal packing. */
module ChunkerLaws {
  import opened Common
  import opened Texts
  import opened RecursiveChunking

  // ---------------------------------------------------------------- the hard split

  function Drop(s: string, n: nat): string {
    if |s| <= n then "" else s[n..]
  }

  /** Undo the overlap: the first window, then each later one without its first `overlap` characters. */
  function Rebuild(windows: seq<string>, overlap: nat): string {
    if windows == [] then "" else windows[0] + Tails(windows[1..], overlap)
  }

  function Tails(windows: seq<string>, overlap: nat): string {
    if windows == [] then "" else Drop(windows[0], overlap) + Tails(windows[1..], overlap)
  }

  lemma DropFirst(w: string, more: string, n: nat)
    ensures |w| >= n ==> Drop(w, n) + more == (w + more)[n..]
    ensures |w| < n ==> Drop(w, n) == ""
  {
  }

  lemma {:induction false} WindowsRebuild(cfg: Config, text: string, start: nat)
    requires cfg.Valid() && cfg.overlap >= 0 && start < |text|
    ensures Rebuild(Windows(cfg, text, start), cfg.overlap) == text[start..]
    decreases |text| - start
  {
    var next := start + cfg.size - cfg.overlap;
    var w := Slice(text, start, start + cfg.size);
    assert w == if start + cfg.size < |text| then text[start..start + cfg.size] else text[start..];
    var later := Windows(cfg, text, next);
    assert Windows(cfg, text, start) == [w] + later;
    assert ([w] + later)[1..] == later;
    if next < |text| {
      WindowsRebuild(cfg, text, next);
      var w', tails := later[0], Tails(later[1..], cfg.overlap);
      assert w' + tails == text[next..];
      assert |w'| < cfg.overlap ==> tails == "";
      DropFirst(w', tails, cfg.overlap);
      if |w'| >= cfg.overlap {
        assert text[next..][cfg.overlap..] == text[start + cfg.size..];
        if start + cfg.size < |text| {
          assert text[start..start + cfg.size] + text[start + cfg.size..] == text[start..];
        }
      }
    }
  }

  /** With an overlap of 0 or more, no character is lost by the hard split, and none is made up. */
  lemma HardSplitRebuilds(cfg: Config, text: string)
    requires cfg.Valid() && cfg.overlap >= 0
    ensures Rebuild(HardPieces(cfg, text), cfg.overlap) == text
  {
    if text != "" {
      WindowsRebuild(cfg, text, 0);
      assert text[0..] == text;
    }
  }

  ghost predicate InSome(c: char, windows: seq<string>) {
    exists i :: 0 <= i < |windows| && c in windows[i]
  }

  lemma {:induction false} TailsComeFromWindows(windows: seq<string>, overlap: nat, c: char)
    requires c in Tails(windows, overlap)
    ensures InSome(c, windows)
  {
    if c in Drop(windows[0], overlap) {
      assert c in windows[0];
    } else {
      TailsComeFromWindows(windows[1..], overlap, c);
      var i :| 0 <= i < |windows[1..]| && c in windows[1..][i];
      assert c in windows[i + 1];
    }
  }

  /** A text whose last character no window reaches. */
  lemma GapLosesCharacter(cfg: Config) returns (text: string)
    requires cfg.Valid() && cfg.overlap < 0
    ensures 'b' in text && !InSome('b', HardPieces(cfg, text))
  {
    var n := Max(0, cfg.size);
    text := seq(n, _ => 'a') + ['b'];
    var first := Slice(text, 0, cfg.size);
    assert text[n] == 'b';
    assert Windows(cfg, text, 0) == [first] + Windows(cfg, text, cfg.size - cfg.overlap);
    if cfg.size >= 0 {
      assert Windows(cfg, text, cfg.size - cfg.overlap) == [];
    } else {
      WindowsAtEnd(cfg, text);
    }
  }

  /** With a negative size the only window of a single character is empty. */
  lemma WindowsAtEnd(cfg: Config, text: string)
    requires cfg.Valid() && cfg.size < 0 && |text| == 1
    ensures Windows(cfg, text, 0) == [""]
  {
    assert Windows(cfg, text, cfg.size - cfg.overlap) == [];
  }

  /** The hard split keeps every character of every text exactly if chunk_overlap is not negative. */
  lemma HardSplitKeepsCharactersIff(cfg: Config)
    requires cfg.Valid()
    ensures (forall text: string, c: char | c in text :: InSome(c, HardPieces(cfg, text))) <==> cfg.overlap >= 0
  {
    if cfg.overlap >= 0 {
      forall text: string, c: char | c in text ensures InSome(c, HardPieces(cfg, text)) {
        var windows := HardPieces(cfg, text);
        HardSplitRebuilds(cfg, text);
        if c in windows[0] {
          assert InSome(c, windows);
        } else {
          TailsComeFromWindows(windows[1..], cfg.overlap, c);
          var i :| 0 <= i < |windows[1..]| && c in windows[1..][i];
          assert c in windows[i + 1];
        }
      }
    } else {
      var text := GapLosesCharacter(cfg);
    }
  }

  lemma {:induction false} WindowsCount(cfg: Config, text: string, start: nat)
    requires cfg.Valid() && start < |text|
    ensures var n, step := |Windows(cfg, text, start)|, cfg.size - cfg.overlap;
      n >= 1 && (n - 1) * step < |text| - start <= n * step
    decreases |text| - start
  {
    var step := cfg.size - cfg.overlap;
    if start + step < |text| {
      WindowsCount(cfg, text, start + step);
      OneMoreStep(|Windows(cfg, text, start + step)|, step, |text| - start);
    }
  }

  lemma OneMoreStep(n: nat, step: nat, length: int)
    requires (n - 1) * step < length - step <= n * step
    ensures n * step < length <= (n + 1) * step
  {
    assert (n + 1) * step == n * step + step && n * step == (n - 1) * step + step;
  }

  /** The number of windows is |text| / (size - overlap), rounded up. */
  lemma HardSplitCount(cfg: Config, text: string)
    requires cfg.Valid()
    ensures var n, step := |HardPieces(cfg, text)|, cfg.size - cfg.overlap;
      |text| <= n * step && (n > 0 ==> (n - 1) * step < |text|)
  {
    if text != "" {
      WindowsCount(cfg, text, 0);
    }
  }

  // ---------------------------------------------------------------- chunk sizes

  /** The list ends in the hard split, as _SEPARATORS does. */
  predicate EndsHard(seps: seq<string>) {
    seps == [] || seps[|seps| - 1] == ""
  }

  /** How long a chunk of at most n characters gets by the beginning of another one. */
  function Grown(n: nat, overlap: int): nat {
    n + (if overlap >= 0 then overlap else Max(0, n + overlap))
  }

  /** The chunks grow once for each separator before the hard split. */
  function Bound(cfg: Config, seps: seq<string>): (n: nat)
    requires cfg.size >= 0
    ensures n >= cfg.size
  {
    if IsHard(seps) then cfg.size else Grown(Bound(cfg, seps[1..]), cfg.overlap)
  }

  ghost predicate AllWithin(chunks: seq<string>, n: nat) {
    forall i | 0 <= i < |chunks| :: |chunks[i]| <= n
  }

  lemma {:induction false} WindowsWithin(cfg: Config, text: string, start: nat)
    requires cfg.Valid() && cfg.size >= 0
    ensures AllWithin(Windows(cfg, text, start), cfg.size)
    decreases |text| - start
  {
    if start < |text| {
      WindowsWithin(cfg, text, start + cfg.size - cfg.overlap);
    }
  }

  lemma OverlapWithin(chunks: seq<string>, overlap: int, n: nat)
    requires AllWithin(chunks, n)
    ensures AllWithin(Overlapped(chunks, overlap), Grown(n, overlap))
  {
  }

  lemma {:induction false} SplitWithin(cfg: Config, text: string, seps: seq<string>)
    requires cfg.Valid() && cfg.size >= 0 && EndsHard(seps)
    ensures AllWithin(SplitText(cfg, text, seps), Bound(cfg, seps))
    decreases |seps|, 0
  {
    if |text| > cfg.size {
      if IsHard(seps) {
        WindowsWithin(cfg, text, 0);
      } else {
        var parts := Split(text, seps[0]);
        PackWithin(cfg, parts, "", seps[0], seps[1..]);
        OverlapWithin(Pack(cfg, parts, "", seps[0], seps[1..]), cfg.overlap, Bound(cfg, seps[1..]));
      }
    }
  }

  lemma {:induction false} PackWithin(cfg: Config, parts: seq<string>, current: string, sep: string, rest: seq<string>)
    requires cfg.Valid() && cfg.size >= 0 && rest != [] && EndsHard(rest) && |current| <= cfg.size
    ensures AllWithin(Pack(cfg, parts, current, sep, rest), Bound(cfg, rest))
    decreases |rest|, |parts| + 1
  {
    if parts != [] {
      var part, candidate := parts[0], Candidate(current, sep, parts[0]);
      if |candidate| <= cfg.size {
        PackWithin(cfg, parts[1..], candidate, sep, rest);
      } else if |part| > cfg.size {
        SplitWithin(cfg, part, rest);
        PackWithin(cfg, parts[1..], current, sep, rest);
      } else {
        PackWithin(cfg, parts[1..], part, sep, rest);
      }
    }
  }

  lemma {:induction false} FilteredMembers(chunks: seq<string>)
    ensures forall c :: c in Filtered(chunks) <==> c in chunks && NotBlank(c)
  {
    if chunks != [] {
      FilteredMembers(chunks[..|chunks| - 1]);
      assert chunks == chunks[..|chunks| - 1] + [chunks[|chunks| - 1]];
    }
  }

  lemma StandardBound(cfg: Config)
    requires cfg.size >= 0
    ensures cfg.overlap >= 0 ==> Bound(cfg, SEPARATORS) == cfg.size + 4 * cfg.overlap
  {
    assert SEPARATORS[1..] == ["\n", ". ", " ", ""];
    assert ["\n", ". ", " ", ""][1..] == [". ", " ", ""];
    assert [". ", " ", ""][1..] == [" ", ""];
    assert [" ", ""][1..] == [""];
    assert Bound(cfg, [""]) == cfg.size;
    assert Bound(cfg, [" ", ""]) == Grown(cfg.size, cfg.overlap);
    assert Bound(cfg, [". ", " ", ""]) == Grown(Bound(cfg, [" ", ""]), cfg.overlap);
    assert Bound(cfg, ["\n", ". ", " ", ""]) == Grown(Bound(cfg, [". ", " ", ""]), cfg.overlap);
  }

  /**
   With an overlap of 0 or more a chunk is at most chunk_size + 4 * chunk_overlap long, hence
   within chunk_size without overlap.
   */
  lemma ChunkSizes(cfg: Config, text: string)
    requires cfg.Valid() && cfg.size >= 0
    ensures forall c | c in ChunksOf(cfg, text) :: 0 < |c| <= Bound(cfg, SEPARATORS)
    ensures cfg.overlap >= 0 ==> Bound(cfg, SEPARATORS) == cfg.size + 4 * cfg.overlap
  {
    var stripped := Strip(text);
    StandardBound(cfg);
    SplitWithin(cfg, stripped, SEPARATORS);
    FilteredMembers(SplitText(cfg, stripped, SEPARATORS));
  }

  /** No chunk is empty or blank: it has a character that strip() keeps. */
  lemma ChunksAreNotBlank(cfg: Config, text: string)
    requires cfg.Valid()
    ensures forall c | c in ChunksOf(cfg, text) :: exists i :: 0 <= i < |c| && !IsSpace(c[i])
  {
    FilteredMembers(SplitText(cfg, Strip(text), SEPARATORS));
  }

  // ---------------------------------------------------------------- what the overlap repeats

  /**
   A chunk with a successor is followed by the first characters of the successor, as many as the
   overlap says or as it has; the last chunk is left alone. So a result ends where the next
   result begins.
   */
  lemma OverlapRepeatsNext(chunks: seq<string>, overlap: nat, i: nat)
    requires i < |chunks|
    ensures |Overlapped(chunks, overlap)| == |chunks|
    ensures i + 1 == |chunks| ==> Overlapped(chunks, overlap)[i] == chunks[i]
    ensures i + 1 < |chunks| ==>
      var here, next := Overlapped(chunks, overlap)[i], Overlapped(chunks, overlap)[i + 1];
      var n := if overlap < |chunks[i + 1]| then overlap else |chunks[i + 1]|;
      && |here| == |chunks[i]| + n && |next| >= n
      && here[..|chunks[i]|] == chunks[i]
      && here[|chunks[i]|..] == next[..n]
  {
  }

  /** A negative overlap repeats the next chunk but for its last characters. */
  lemma NegativeOverlap(chunks: seq<string>, overlap: int, i: nat)
    requires overlap < 0 && i + 1 < |chunks|
    ensures var n := if |chunks[i + 1]| + overlap > 0 then |chunks[i + 1]| + overlap else 0;
      Overlapped(chunks, overlap)[i] == chunks[i] + chunks[i + 1][..n]
  {
  }

  // ---------------------------------------------------------------- no text is lost

  /** The text cut at every separator of every level. */
  function Tokens(text: string, seps: seq<string>): seq<string>
    decreases |seps|, 0
  {
    if IsHard(seps) then [text] else TokensOfAll(Split(text, seps[0]), seps[1..])
  }

  function TokensOfAll(parts: seq<string>, seps: seq<string>): seq<string>
    decreases |seps|, |parts| + 1
  {
    if parts == [] then [] else Tokens(parts[0], seps) + TokensOfAll(parts[1..], seps)
  }

  /** What must survive of a token: all of it, or its hard-split windows if it is too long. */
  function Pieces(cfg: Config, token: string): seq<string>
    requires cfg.Valid()
  {
    if |token| <= cfg.size then [token] else HardPieces(cfg, token)
  }

  ghost predicate Covered(piece: string, chunks: seq<string>) {
    exists i :: 0 <= i < |chunks| && Occurs(piece, chunks[i])
  }

  lemma CoveredByMore(piece: string, before: seq<string>, chunks: seq<string>, after: seq<string>)
    requires Covered(piece, chunks)
    ensures Covered(piece, before + chunks + after)
  {
    var i :| 0 <= i < |chunks| && Occurs(piece, chunks[i]);
    assert (before + chunks + after)[|before| + i] == chunks[i];
  }

  lemma CoveredBehind(piece: string, before: seq<string>, chunks: seq<string>)
    requires Covered(piece, chunks)
    ensures Covered(piece, before + chunks)
  {
    var i :| 0 <= i < |chunks| && Occurs(piece, chunks[i]);
    assert (before + chunks)[|before| + i] == chunks[i];
  }

  lemma CoveredInside(piece: string, whole: string, chunks: seq<string>)
    requires Occurs(piece, whole) && Covered(whole, chunks)
    ensures Covered(piece, chunks)
  {
    var i :| 0 <= i < |chunks| && Occurs(whole, chunks[i]);
    OccursTransitive(piece, whole, chunks[i]);
  }

  lemma CoveredByItself(chunks: seq<string>, i: nat)
    requires i < |chunks|
    ensures Covered(chunks[i], chunks)
  {
    OccursWithin(chunks[i], chunks[i], "", "");
  }

  lemma OverlapKeeps(piece: string, chunks: seq<string>, overlap: int)
    requires Covered(piece, chunks)
    ensures Covered(piece, Overlapped(chunks, overlap))
  {
    var i :| 0 <= i < |chunks| && Occurs(piece, chunks[i]);
    var c := Overlapped(chunks, overlap)[i];
    assert c == "" + chunks[i] + c[|chunks[i]|..];
    OccursTransitive(piece, chunks[i], c);
  }

  lemma PackEmits(cfg: Config, parts: seq<string>, current: string, sep: string, rest: seq<string>)
    requires cfg.Valid() && current != "" && parts != [] && |Candidate(current, sep, parts[0])| > cfg.size
    ensures Pack(cfg, parts, current, sep, rest) != [] && Pack(cfg, parts, current, sep, rest)[0] == current
  {
  }

  /** `current` ends up in a chunk, and so does every part that is empty of text or fits. */
  lemma {:induction false} PackKeepsCurrent(cfg: Config, parts: seq<string>, current: string, sep: string,
                                            rest: seq<string>)
    requires cfg.Valid() && current != ""
    ensures Covered(current, Pack(cfg, parts, current, sep, rest))
    decreases |parts|
  {
    if parts == [] {
      CoveredByItself([current], 0);
    } else {
      var candidate := Candidate(current, sep, parts[0]);
      if |candidate| <= cfg.size {
        PackKeepsCurrent(cfg, parts[1..], candidate, sep, rest);
        assert candidate == "" + current + (sep + parts[0]);
        CoveredInside(current, candidate, Pack(cfg, parts[1..], candidate, sep, rest));
      } else {
        PackEmits(cfg, parts, current, sep, rest);
        CoveredByItself(Pack(cfg, parts, current, sep, rest), 0);
      }
    }
  }

  lemma PackKeepsFirst(cfg: Config, parts: seq<string>, current: string, sep: string, rest: seq<string>)
    requires cfg.Valid() && parts != [] && parts[0] != "" && |parts[0]| <= cfg.size
    ensures Covered(parts[0], Pack(cfg, parts, current, sep, rest))
  {
    var part, candidate := parts[0], Candidate(current, sep, parts[0]);
    var all := Pack(cfg, parts, current, sep, rest);
    if |candidate| <= cfg.size {
      PackKeepsCurrent(cfg, parts[1..], candidate, sep, rest);
      OccursWithin(part, candidate, if current != "" then current + sep else "", "");
      CoveredInside(part, candidate, Pack(cfg, parts[1..], candidate, sep, rest));
    } else {
      var emitted := if current != "" then [current] else [];
      var later := Pack(cfg, parts[1..], part, sep, rest);
      PackKeepsCurrent(cfg, parts[1..], part, sep, rest);
      CoveredBehind(part, emitted, later);
    }
  }

  /** The chunks of what follows the first part are chunks of the whole. */
  lemma PackGoesOn(cfg: Config, parts: seq<string>, current: string, sep: string, rest: seq<string>)
    returns (before: seq<string>, next: string)
    requires cfg.Valid() && parts != []
    ensures Pack(cfg, parts, current, sep, rest) == before + Pack(cfg, parts[1..], next, sep, rest)
  {
    var part, candidate := parts[0], Candidate(current, sep, parts[0]);
    var emitted := if current != "" then [current] else [];
    if |candidate| <= cfg.size {
      before, next := [], candidate;
    } else if |part| > cfg.size && rest != [] {
      before, next := emitted + SplitText(cfg, part, rest), current;
      PackOversized(cfg, parts, current, sep, rest);
    } else {
      before, next := emitted, part;
    }
  }

  /** The chunks of what follows the first k parts are the last chunks of the whole. */
  lemma {:induction false} PackReaches(cfg: Config, parts: seq<string>, current: string, sep: string,
                                       rest: seq<string>, k: nat)
    returns (before: seq<string>, next: string)
    requires cfg.Valid() && k <= |parts|
    ensures Pack(cfg, parts, current, sep, rest) == before + Pack(cfg, parts[k..], next, sep, rest)
    decreases k
  {
    if k == 0 {
      before, next := [], current;
      assert parts[0..] == parts;
    } else {
      var before', next' := PackReaches(cfg, parts, current, sep, rest, k - 1);
      var before'', next'' := PackGoesOn(cfg, parts[k - 1..], next', sep, rest);
      assert parts[k - 1..][1..] == parts[k..];
      before, next := before' + before'', next'';
    }
  }

  lemma PackKeepsPart(cfg: Config, parts: seq<string>, current: string, sep: string, rest: seq<string>, k: nat)
    requires cfg.Valid() && k < |parts| && parts[k] != "" && |parts[k]| <= cfg.size
    ensures Covered(parts[k], Pack(cfg, parts, current, sep, rest))
  {
    var before, next := PackReaches(cfg, parts, current, sep, rest, k);
    PackKeepsFirst(cfg, parts[k..], next, sep, rest);
    CoveredBehind(parts[k], before, Pack(cfg, parts[k..], next, sep, rest));
  }

  /** An oversized part is split further behind what was open, which stays open. */
  lemma PackOversized(cfg: Config, parts: seq<string>, current: string, sep: string, rest: seq<string>)
    requires cfg.Valid() && rest != [] && parts != [] && |parts[0]| > cfg.size
    ensures Pack(cfg, parts, current, sep, rest) ==
      (if current != "" then [current] else []) + SplitText(cfg, parts[0], rest)
      + Pack(cfg, parts[1..], current, sep, rest)
  {
    var emitted: seq<string> := if current != "" then [current] else [];
    Regroup(emitted, [], SplitText(cfg, parts[0], rest), Pack(cfg, parts[1..], current, sep, rest));
    assert emitted + [] == emitted;
  }

  lemma PackKeepsOversized(cfg: Config, parts: seq<string>, current: string, sep: string, rest: seq<string>,
                           k: nat, piece: string)
    requires cfg.Valid() && rest != [] && k < |parts| && |parts[k]| > cfg.size
    requires Covered(piece, SplitText(cfg, parts[k], rest))
    ensures Covered(piece, Pack(cfg, parts, current, sep, rest))
  {
    var before, next := PackReaches(cfg, parts, current, sep, rest, k);
    var later := parts[k..];
    var emitted := if next != "" then [next] else [];
    PackOversized(cfg, later, next, sep, rest);
    CoveredByMore(piece, emitted, SplitText(cfg, parts[k], rest), Pack(cfg, later[1..], next, sep, rest));
    CoveredBehind(piece, before, Pack(cfg, later, next, sep, rest));
  }

  lemma {:induction false} TokensComeFromParts(parts: seq<string>, seps: seq<string>, token: string) returns (k: nat)
    requires token in TokensOfAll(parts, seps)
    ensures k < |parts| && token in Tokens(parts[k], seps)
    decreases |parts|
  {
    if token in Tokens(parts[0], seps) {
      k := 0;
    } else {
      var m := TokensComeFromParts(parts[1..], seps, token);
      k := m + 1;
    }
  }

  lemma {:induction false} TokenOccurs(text: string, seps: seq<string>, token: string)
    requires token in Tokens(text, seps)
    ensures Occurs(token, text)
    decreases |seps|
  {
    if IsHard(seps) {
      OccursWithin(text, text, "", "");
    } else {
      var parts := Split(text, seps[0]);
      var k := TokensComeFromParts(parts, seps[1..], token);
      TokenOccurs(parts[k], seps[1..], token);
      PartOccurs(seps[0], parts, k);
      SplitRejoins(text, seps[0]);
      OccursTransitive(token, parts[k], text);
    }
  }

  lemma OccursIsShorter(part: string, whole: string)
    requires Occurs(part, whole)
    ensures |part| <= |whole|
  {
  }

  lemma {:induction false} SplitCovers(cfg: Config, text: string, seps: seq<string>, token: string, piece: string)
    requires cfg.Valid() && EndsHard(seps)
    requires token in Tokens(text, seps) && piece in Pieces(cfg, token) && piece != ""
    ensures Covered(piece, SplitText(cfg, text, seps))
    decreases |seps|
  {
    TokenOccurs(text, seps, token);
    OccursIsShorter(token, text);
    if |text| <= cfg.size {
      assert SplitText(cfg, text, seps)[0] == text;
    } else if IsHard(seps) {
      var i :| 0 <= i < |Pieces(cfg, token)| && Pieces(cfg, token)[i] == piece;
      CoveredByItself(HardPieces(cfg, text), i);
    } else {
      var sep, rest, parts := seps[0], seps[1..], Split(text, seps[0]);
      var packed := Pack(cfg, parts, "", sep, rest);
      var k := TokensComeFromParts(parts, rest, token);
      TokenOccurs(parts[k], rest, token);
      OccursIsShorter(token, parts[k]);
      if |parts[k]| > cfg.size {
        SplitCovers(cfg, parts[k], rest, token, piece);
        PackKeepsOversized(cfg, parts, "", sep, rest, k, piece);
      } else {
        PackKeepsPart(cfg, parts, "", sep, rest, k);
        CoveredInside(token, parts[k], packed);
      }
      OverlapKeeps(piece, packed, cfg.overlap);
    }
  }

  /**
   Every token of the text that is not blank occurs whole in a chunk if it fits chunk_size. Of
   a longer one every non-blank hard-split window does, and HardSplitRebuilds puts those
   together again.
   */
  lemma NoTextIsLost(cfg: Config, text: string, token: string, piece: string)
    requires cfg.Valid()
    requires token in Tokens(Strip(text), SEPARATORS) && piece in Pieces(cfg, token) && NotBlank(piece)
    ensures exists c :: c in ChunksOf(cfg, text) && Occurs(piece, c)
  {
    var stripped := Strip(text);
    var all := SplitText(cfg, stripped, SEPARATORS);
    SplitCovers(cfg, stripped, SEPARATORS, token, piece);
    var i :| 0 <= i < |all| && Occurs(piece, all[i]);
    if IsBlank(all[i]) {
      BlankIsInherited(piece, all[i]);
    }
    FilteredMembers(all);
    TokenOccurs(stripped, SEPARATORS, token);
    OccursIsShorter(token, stripped);
    assert token == "" ==> piece == "";
    assert stripped != "";
    assert all[i] in ChunksOf(cfg, text);
  }

  // ---------------------------------------------------------------- packing

  function Concat(groups: seq<seq<string>>): seq<string> {
    if groups == [] then [] else groups[0] + Concat(groups[1..])
  }

  ghost predicate AllFit(cfg: Config, parts: seq<string>) {
    forall i | 0 <= i < |parts| :: 0 < |parts[i]| <= cfg.size
  }

  /** A way to cut the parts into runs that each fit a chunk when joined. */
  ghost predicate IsGrouping(cfg: Config, groups: seq<seq<string>>, parts: seq<string>, sep: string) {
    && Concat(groups) == parts
    && forall i | 0 <= i < |groups| :: groups[i] != [] && |Join(sep, groups[i])| <= cfg.size
  }

  lemma {:induction false} PackJoins(cfg: Config, parts: seq<string>, current: string, sep: string, rest: seq<string>)
    requires cfg.Valid() && AllFit(cfg, parts) && current != ""
    ensures Pack(cfg, parts, current, sep, rest) != []
    ensures Join(sep, Pack(cfg, parts, current, sep, rest)) == Join(sep, [current] + parts)
    decreases |parts|
  {
    if parts != [] {
      var part, candidate := parts[0], Candidate(current, sep, parts[0]);
      assert ([current] + parts)[1..] == parts;
      assert forall i | 0 <= i < |parts[1..]| :: parts[1..][i] == parts[i + 1];
      if |candidate| <= cfg.size {
        PackJoins(cfg, parts[1..], candidate, sep, rest);
        JoinHead(sep, current, part, parts[1..]);
      } else {
        PackJoins(cfg, parts[1..], part, sep, rest);
        var later := Pack(cfg, parts[1..], part, sep, rest);
        assert [part] + parts[1..] == parts;
        assert ([current] + later)[1..] == later;
      }
    }
  }

  lemma JoinHead(sep: string, a: string, b: string, more: seq<string>)
    ensures Join(sep, [a + sep + b] + more) == Join(sep, [a] + ([b] + more))
  {
    assert ([a + sep + b] + more)[1..] == more;
    assert ([a] + ([b] + more))[1..] == [b] + more;
    assert ([b] + more)[1..] == more;
    if more != [] {
      assert a + sep + b + sep + Join(sep, more) == a + sep + (b + sep + Join(sep, more));
    }
  }

  /** Adding `more` to a chunk that already holds g, as the loop does. */
  function Extended(g: string, sep: string, more: seq<string>): string
    decreases |more|
  {
    if more == [] then g else Extended(g + sep + more[0], sep, more[1..])
  }

  lemma {:induction false} ExtendedIsJoin(g: string, sep: string, more: seq<string>)
    ensures Extended(g, sep, more) == Join(sep, [g] + more)
    ensures |Extended(g, sep, more)| >= |g|
    decreases |more|
  {
    if more == [] {
      assert [g] + more == [g];
    } else {
      ExtendedIsJoin(g + sep + more[0], sep, more[1..]);
      JoinHead(sep, g, more[0], more[1..]);
      assert [more[0]] + more[1..] == more;
    }
  }

  /**
   Greedy stays ahead. `g` is the open chunk of some grouping, `more` what it will still take,
   `groups` its later chunks. As long as greedy's open chunk is no longer than g, it needs no
   more chunks; if it is longer, greedy must have closed one chunk fewer (`spare`).
   */
  lemma {:induction false} GreedyStaysAhead(cfg: Config, parts: seq<string>, current: string, sep: string,
                                            rest: seq<string>,
                                            g: string, more: seq<string>, groups: seq<seq<string>>, spare: bool)
    requires cfg.Valid() && AllFit(cfg, parts) && current != "" && g != ""
    requires parts == more + Concat(groups)
    requires |Extended(g, sep, more)| <= cfg.size
    requires forall i | 0 <= i < |groups| :: groups[i] != [] && |Join(sep, groups[i])| <= cfg.size
    requires spare || |current| <= |g|
    ensures |Pack(cfg, parts, current, sep, rest)| <= 1 + |groups| + (if spare then 1 else 0)
    decreases |parts|
  {
    if parts != [] {
      var part, candidate := parts[0], Candidate(current, sep, parts[0]);
      assert forall i | 0 <= i < |parts[1..]| :: parts[1..][i] == parts[i + 1];
      var g', more', groups', isNew := NextInGrouping(parts, sep, g, more, groups);
      if isNew {
        assert groups[0] == [part] + more';
        ExtendedIsJoin(g', sep, more');
      } else {
        ExtendedIsJoin(g', sep, more');
      }
      if |candidate| <= cfg.size {
        GreedyStaysAhead(cfg, parts[1..], candidate, sep, rest, g', more', groups', spare || isNew);
      } else {
        GreedyStaysAhead(cfg, parts[1..], part, sep, rest, g', more', groups', spare && isNew);
      }
    }
  }

  /** Where the grouping puts the next part: into its open chunk, or into a new one. */
  lemma NextInGrouping(parts: seq<string>, sep: string, g: string, more: seq<string>, groups: seq<seq<string>>)
    returns (g': string, more': seq<string>, groups': seq<seq<string>>, isNew: bool)
    requires parts != [] && parts == more + Concat(groups)
    requires forall i | 0 <= i < |groups| :: groups[i] != []
    ensures isNew <==> more == []
    ensures parts[1..] == more' + Concat(groups')
    ensures !isNew ==> g' == g + sep + parts[0] && more == [parts[0]] + more' && groups' == groups
    ensures isNew ==> groups != [] && g' == parts[0] && groups[0] == [parts[0]] + more' && groups' == groups[1..]
  {
    isNew := more == [];
    if isNew {
      g', more', groups' := parts[0], groups[0][1..], groups[1..];
      assert parts == groups[0] + Concat(groups[1..]);
    } else {
      g', more', groups' := g + sep + parts[0], more[1..], groups;
    }
  }

  lemma PackStart(cfg: Config, parts: seq<string>, sep: string, rest: seq<string>)
    requires cfg.Valid() && parts != [] && AllFit(cfg, parts)
    ensures Pack(cfg, parts, "", sep, rest) == Pack(cfg, parts[1..], parts[0], sep, rest)
    ensures AllFit(cfg, parts[1..]) && parts[0] != ""
  {
    assert forall i | 0 <= i < |parts[1..]| :: parts[1..][i] == parts[i + 1];
  }

  /** When every part is non-empty and fits, the chunks before the overlap join up to the text again. */
  lemma PackingRejoins(cfg: Config, text: string, sep: string, rest: seq<string>)
    requires cfg.Valid() && sep != "" && AllFit(cfg, Split(text, sep))
    ensures Join(sep, Pack(cfg, Split(text, sep), "", sep, rest)) == text
  {
    var parts := Split(text, sep);
    SplitRejoins(text, sep);
    PackStart(cfg, parts, sep, rest);
    PackJoins(cfg, parts[1..], parts[0], sep, rest);
    assert [parts[0]] + parts[1..] == parts;
  }

  /** ... and no grouping of consecutive parts into pieces of at most chunk_size has fewer of them. */
  lemma PackingIsOptimal(cfg: Config, parts: seq<string>, sep: string, rest: seq<string>, groups: seq<seq<string>>)
    requires cfg.Valid() && AllFit(cfg, parts) && IsGrouping(cfg, groups, parts, sep)
    ensures |Pack(cfg, parts, "", sep, rest)| <= |groups|
  {
    if parts != [] {
      PackStart(cfg, parts, sep, rest);
      var more, later := groups[0][1..], groups[1..];
      assert parts == groups[0] + Concat(later);
      assert groups[0] == [parts[0]] + more;
      assert parts[1..] == more + Concat(later);
      ExtendedIsJoin(parts[0], sep, more);
      GreedyStaysAhead(cfg, parts[1..], parts[0], sep, rest, parts[0], more, later, false);
    }
  }

  // ---------------------------------------------------------------- text that is emitted twice

  ghost predicate Twice(piece: string, chunks: seq<string>) {
    exists i, k :: 0 <= i < k < |chunks| && Occurs(piece, chunks[i]) && Occurs(piece, chunks[k])
  }

  /** A part that fits and is followed by an oversized one is emitted before it and again behind it. */
  lemma OversizedPartRepeats(cfg: Config, parts: seq<string>, current: string, sep: string, rest: seq<string>, k: nat)
    requires cfg.Valid() && rest != [] && k + 1 < |parts|
    requires parts[k] != "" && |parts[k]| <= cfg.size && |parts[k + 1]| > cfg.size
    ensures Twice(parts[k], Pack(cfg, parts, current, sep, rest))
  {
    var before, next := PackReaches(cfg, parts, current, sep, rest, k);
    FirstRepeats(cfg, parts[k..], next, sep, rest);
    TwiceBehind(parts[k], Pack(cfg, parts[k..], next, sep, rest), before);
  }

  lemma FirstRepeats(cfg: Config, parts: seq<string>, current: string, sep: string, rest: seq<string>)
    requires cfg.Valid() && rest != [] && |parts| >= 2
    requires parts[0] != "" && |parts[0]| <= cfg.size && |parts[1]| > cfg.size
    ensures Twice(parts[0], Pack(cfg, parts, current, sep, rest))
  {
    var part, candidate := parts[0], Candidate(current, sep, parts[0]);
    if |candidate| <= cfg.size {
      RepeatsCurrent(cfg, parts[1..], candidate, sep, rest);
      OccursWithin(part, candidate, if current != "" then current + sep else "", "");
      TwiceWithin(part, candidate, Pack(cfg, parts[1..], candidate, sep, rest), []);
    } else {
      RepeatsCurrent(cfg, parts[1..], part, sep, rest);
      OccursWithin(part, part, "", "");
      TwiceWithin(part, part, Pack(cfg, parts[1..], part, sep, rest), if current != "" then [current] else []);
    }
  }

  lemma RepeatsCurrent(cfg: Config, parts: seq<string>, current: string, sep: string, rest: seq<string>)
    requires cfg.Valid() && rest != [] && parts != [] && |parts[0]| > cfg.size && current != ""
    ensures Twice(current, Pack(cfg, parts, current, sep, rest))
  {
    var all := Pack(cfg, parts, current, sep, rest);
    var finer, later := SplitText(cfg, parts[0], rest), Pack(cfg, parts[1..], current, sep, rest);
    assert all == [current] + (finer + later);
    PackKeepsCurrent(cfg, parts[1..], current, sep, rest);
    var i :| 0 <= i < |later| && Occurs(current, later[i]);
    OccursWithin(current, all[0], "", "");
    assert all[1 + |finer| + i] == later[i];
  }

  lemma TwiceBehind(piece: string, chunks: seq<string>, before: seq<string>)
    requires Twice(piece, chunks)
    ensures Twice(piece, before + chunks)
  {
    OccursWithin(piece, piece, "", "");
    TwiceWithin(piece, piece, chunks, before);
  }

  lemma TwiceWithin(piece: string, whole: string, chunks: seq<string>, before: seq<string>)
    requires Occurs(piece, whole) && Twice(whole, chunks)
    ensures Twice(piece, before + chunks)
  {
    var i, k :| 0 <= i < k < |chunks| && Occurs(whole, chunks[i]) && Occurs(whole, chunks[k]);
    OccursTransitive(piece, whole, chunks[i]);
    OccursTransitive(piece, whole, chunks[k]);
    assert (before + chunks)[|before| + i] == chunks[i] && (before + chunks)[|before| + k] == chunks[k];
  }

  // ---------------------------------------------------------------- when clearing `current` would matter

  /** The same loop with `current` cleared before it goes into an oversized part. */
  function PackCleared(cfg: Config, parts: seq<string>, current: string, sep: string, rest: seq<string>): seq<string>
    requires cfg.Valid()
    decreases |parts|
  {
    if parts == [] then
      if current != "" then [current] else []
    else
      var part, candidate := parts[0], Candidate(current, sep, parts[0]);
      if |candidate| <= cfg.size then PackCleared(cfg, parts[1..], candidate, sep, rest)
      else
        (if current != "" then [current] else [])
        + if |part| > cfg.size && rest != [] then
            SplitText(cfg, part, rest) + PackCleared(cfg, parts[1..], "", sep, rest)
          else
            PackCleared(cfg, parts[1..], part, sep, rest)
  }

  /** `current` is empty whenever the loop meets an oversized part. */
  predicate NeverCarries(cfg: Config, parts: seq<string>, current: string, sep: string, rest: seq<string>)
    decreases |parts|
  {
    parts == [] ||
    var part, candidate := parts[0], Candidate(current, sep, parts[0]);
    if |candidate| <= cfg.size then NeverCarries(cfg, parts[1..], candidate, sep, rest)
    else if |part| > cfg.size && rest != [] then current == "" && NeverCarries(cfg, parts[1..], "", sep, rest)
    else NeverCarries(cfg, parts[1..], part, sep, rest)
  }

  /** Then nothing is emitted twice: the loop does what it would do with `current` cleared. */
  lemma {:induction false} NotCarryingIsCleared(cfg: Config, parts: seq<string>, current: string, sep: string,
                                                rest: seq<string>)
    requires cfg.Valid() && NeverCarries(cfg, parts, current, sep, rest)
    ensures Pack(cfg, parts, current, sep, rest) == PackCleared(cfg, parts, current, sep, rest)
    decreases |parts|
  {
    if parts != [] {
      var part, candidate := parts[0], Candidate(current, sep, parts[0]);
      if |candidate| <= cfg.size {
        NotCarryingIsCleared(cfg, parts[1..], candidate, sep, rest);
      } else if |part| > cfg.size && rest != [] {
        NotCarryingIsCleared(cfg, parts[1..], "", sep, rest);
      } else {
        NotCarryingIsCleared(cfg, parts[1..], part, sep, rest);
      }
    }
  }

  /** The number of characters that the separator does not have. */
  function Letters(piece: string, sep: string): nat {
    if piece == "" then 0 else (if piece[0] in sep then 0 else 1) + Letters(piece[1..], sep)
  }

  /**
   A measure of a piece that joining preserves: the length with a separator behind it, if no part
   is empty, else the number of characters that are not the separator's.
   */
  function Weight(byLength: bool, piece: string, sep: string): nat {
    if !byLength then Letters(piece, sep) else if piece == "" then 0 else |piece| + |sep|
  }

  predicate Weighs(byLength: bool, part: string, sep: string) {
    if byLength then part != "" else part == "" || Letters(part, sep) > 0
  }

  ghost predicate AllWeigh(byLength: bool, parts: seq<string>, sep: string) {
    forall i | 0 <= i < |parts| :: Weighs(byLength, parts[i], sep)
  }

  lemma {:induction false} LettersAppend(a: string, b: string, sep: string)
    ensures Letters(a + b, sep) == Letters(a, sep) + Letters(b, sep)
  {
    if a == "" {
      assert a + b == b;
    } else {
      assert (a + b)[1..] == a[1..] + b;
      LettersAppend(a[1..], b, sep);
    }
  }

  lemma {:induction false} NoLetters(piece: string, sep: string)
    ensures Letters(piece, sep) == 0 <==> forall i | 0 <= i < |piece| :: piece[i] in sep
  {
    if piece != "" {
      NoLetters(piece[1..], sep);
      assert forall i | 0 < i < |piece| :: piece[i] == piece[1..][i - 1];
      assert forall i | 0 <= i < |piece[1..]| :: piece[1..][i] == piece[i + 1];
    }
  }

  function TotalWeight(byLength: bool, chunks: seq<string>, sep: string): nat {
    if chunks == [] then 0 else Weight(byLength, chunks[0], sep) + TotalWeight(byLength, chunks[1..], sep)
  }

  lemma {:induction false} TotalWeightAppend(byLength: bool, a: seq<string>, b: seq<string>, sep: string)
    ensures TotalWeight(byLength, a + b, sep) == TotalWeight(byLength, a, sep) + TotalWeight(byLength, b, sep)
  {
    if a == [] {
      assert a + b == b;
    } else {
      assert (a + b)[1..] == a[1..] + b;
      TotalWeightAppend(byLength, a[1..], b, sep);
    }
  }

  /** What the parts weigh once the oversized ones are split. */
  function PartsWeight(byLength: bool, cfg: Config, parts: seq<string>, sep: string, rest: seq<string>): nat
    requires cfg.Valid()
    decreases |parts|
  {
    if parts == [] then 0
    else
      (if |parts[0]| > cfg.size && rest != [] then TotalWeight(byLength, SplitText(cfg, parts[0], rest), sep)
       else Weight(byLength, parts[0], sep))
      + PartsWeight(byLength, cfg, parts[1..], sep, rest)
  }

  lemma CandidateWeight(byLength: bool, current: string, sep: string, part: string)
    requires Weighs(byLength, part, sep)
    ensures Weight(byLength, Candidate(current, sep, part), sep)
         == Weight(byLength, current, sep) + Weight(byLength, part, sep)
    ensures |Candidate(current, sep, part)| >= |part|
  {
    LettersAppend(current + sep, part, sep);
    LettersAppend(current, sep, sep);
    NoLetters(sep, sep);
  }

  /** Appending what the loop emits before it goes on. */
  lemma EmittedWeight(byLength: bool, current: string, finer: seq<string>, later: seq<string>, sep: string)
    ensures TotalWeight(byLength, (if current != "" then [current] else []) + (finer + later), sep)
         == Weight(byLength, current, sep) + TotalWeight(byLength, finer, sep) + TotalWeight(byLength, later, sep)
    ensures TotalWeight(byLength, (if current != "" then [current] else []) + later, sep)
         == Weight(byLength, current, sep) + TotalWeight(byLength, later, sep)
  {
    var emitted: seq<string> := if current != "" then [current] else [];
    assert TotalWeight(byLength, emitted, sep) == Weight(byLength, current, sep);
    TotalWeightAppend(byLength, emitted, finer + later, sep);
    TotalWeightAppend(byLength, emitted, later, sep);
    TotalWeightAppend(byLength, finer, later, sep);
  }

  lemma {:induction false} ClearedWeight(byLength: bool, cfg: Config, parts: seq<string>, current: string, sep: string,
                                         rest: seq<string>)
    requires cfg.Valid() && AllWeigh(byLength, parts, sep)
    ensures TotalWeight(byLength, PackCleared(cfg, parts, current, sep, rest), sep)
         == Weight(byLength, current, sep) + PartsWeight(byLength, cfg, parts, sep, rest)
    decreases |parts|
  {
    if parts != [] {
      var part, candidate := parts[0], Candidate(current, sep, parts[0]);
      CandidateWeight(byLength, current, sep, part);
      if |candidate| <= cfg.size {
        ClearedWeight(byLength, cfg, parts[1..], candidate, sep, rest);
      } else if |part| > cfg.size && rest != [] {
        var later := PackCleared(cfg, parts[1..], "", sep, rest);
        ClearedWeight(byLength, cfg, parts[1..], "", sep, rest);
        EmittedWeight(byLength, current, SplitText(cfg, part, rest), later, sep);
      } else {
        ClearedWeight(byLength, cfg, parts[1..], part, sep, rest);
        EmittedWeight(byLength, current, [], PackCleared(cfg, parts[1..], part, sep, rest), sep);
      }
    }
  }

  /** What is carried over is emitted again, so it counts twice. */
  lemma {:induction false} CarriedWeight(byLength: bool, cfg: Config, parts: seq<string>, current: string, sep: string,
                                         rest: seq<string>)
    requires cfg.Valid() && AllWeigh(byLength, parts, sep)
    requires current != "" ==> Weight(byLength, current, sep) > 0
    ensures var total := TotalWeight(byLength, Pack(cfg, parts, current, sep, rest), sep);
      var once := Weight(byLength, current, sep) + PartsWeight(byLength, cfg, parts, sep, rest);
      total >= once && (!NeverCarries(cfg, parts, current, sep, rest) ==> total > once)
    decreases |parts|
  {
    if parts != [] {
      var part, candidate := parts[0], Candidate(current, sep, parts[0]);
      CandidateWeight(byLength, current, sep, part);
      if |candidate| <= cfg.size {
        CarriedWeight(byLength, cfg, parts[1..], candidate, sep, rest);
      } else if |part| > cfg.size && rest != [] {
        var later := Pack(cfg, parts[1..], current, sep, rest);
        CarriedWeight(byLength, cfg, parts[1..], current, sep, rest);
        EmittedWeight(byLength, current, SplitText(cfg, part, rest), later, sep);
      } else {
        CarriedWeight(byLength, cfg, parts[1..], part, sep, rest);
        EmittedWeight(byLength, current, [], Pack(cfg, parts[1..], part, sep, rest), sep);
      }
    }
  }

  /**
   Leaving `current` uncleared changes the chunks exactly if it is ever carried over: for parts
   of which none is empty, and for parts that are empty or more than separator characters.
   */
  lemma ClearingMattersIff(cfg: Config, parts: seq<string>, sep: string, rest: seq<string>)
    requires cfg.Valid() && (AllWeigh(true, parts, sep) || AllWeigh(false, parts, sep))
    ensures Pack(cfg, parts, "", sep, rest) == PackCleared(cfg, parts, "", sep, rest)
       <==> NeverCarries(cfg, parts, "", sep, rest)
  {
    if NeverCarries(cfg, parts, "", sep, rest) {
      NotCarryingIsCleared(cfg, parts, "", sep, rest);
    } else {
      var byLength := AllWeigh(true, parts, sep);
      CarriedWeight(byLength, cfg, parts, "", sep, rest);
      ClearedWeight(byLength, cfg, parts, "", sep, rest);
    }
  }

  /** With a separator of one character, a newline or a space, this covers every text. */
  lemma ClearingMattersForText(cfg: Config, text: string, sep: string, rest: seq<string>)
    requires cfg.Valid() && |sep| == 1
    ensures Pack(cfg, Split(text, sep), "", sep, rest) == PackCleared(cfg, Split(text, sep), "", sep, rest)
       <==> NeverCarries(cfg, Split(text, sep), "", sep, rest)
  {
    var parts := Split(text, sep);
    forall i | 0 <= i < |parts| ensures Weighs(false, parts[i], sep) {
      PartsAreFree(text, sep, i);
      NoLetters(parts[i], sep);
      if parts[i] != "" && parts[i][0] in sep {
        OccursWithin(sep, parts[i], "", parts[i][1..]);
      }
    }
    ClearingMattersIff(cfg, parts, sep, rest);
  }
}
