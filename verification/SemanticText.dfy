/** What becomes of the text in SemanticTextChunker: of its sentences, tokens and groups. */
module SemanticText {
  import opened Common
  import opened Texts
  import opened RecursiveChunking
  import opened SemanticChunking
  import Laws = ChunkerLaws

  // ---------------------------------------------------------------- tokens of sentences put together

  /** The token is one of the text, at least without a full stop at its end. */
  ghost predicate KeptToken(token: string, text: string, seps: seq<string>) {
    || token in Laws.Tokens(text, seps)
    || (token != "" && token[|token| - 1] == '.' && token[..|token| - 1] in Laws.Tokens(text, seps))
  }

  lemma {:induction false} TokenOfPart(parts: seq<string>, seps: seq<string>, k: nat, token: string)
    requires k < |parts| && token in Laws.Tokens(parts[k], seps)
    ensures token in Laws.TokensOfAll(parts, seps)
    decreases |parts|
  {
    if k > 0 {
      TokenOfPart(parts[1..], seps, k - 1, token);
    }
  }

  lemma KeptByPart(text: string, seps: seq<string>, k: nat, token: string)
    requires !IsHard(seps) && k < |Split(text, seps[0])|
    requires KeptToken(token, Split(text, seps[0])[k], seps[1..])
    ensures KeptToken(token, text, seps)
    ensures token in Laws.Tokens(Split(text, seps[0])[k], seps[1..]) ==> token in Laws.Tokens(text, seps)
  {
    var parts := Split(text, seps[0]);
    if token in Laws.Tokens(parts[k], seps[1..]) {
      TokenOfPart(parts, seps[1..], k, token);
    } else {
      TokenOfPart(parts, seps[1..], k, token[..|token| - 1]);
    }
  }

  /** The lists _split works through, from some separator on. */
  predicate IsTail(seps: seq<string>) {
    || seps == ["\n\n", "\n", ". ", " ", ""] || seps == ["\n", ". ", " ", ""]
    || seps == [". ", " ", ""] || seps == [" ", ""]
  }

  lemma TailOfTail(seps: seq<string>)
    requires IsTail(seps)
    ensures !IsHard(seps) && (seps[0] != " " ==> IsTail(seps[1..]))
    ensures seps[0] in {"\n\n", "\n", ". ", " "}
    ensures seps[0] == " " ==> seps[1..] == [""]
    ensures seps[0] == ". " ==> seps[1..] == [" ", ""]
  {
    assert ["\n\n", "\n", ". ", " ", ""][1..] == ["\n", ". ", " ", ""];
    assert ["\n", ". ", " ", ""][1..] == [". ", " ", ""];
    assert [". ", " ", ""][1..] == [" ", ""];
    assert [" ", ""][1..] == [""];
  }

  lemma SpaceBetween(x: string, y: string, seps: seq<string>, token: string)
    requires seps == [" ", ""] && (token in Laws.Tokens(x, seps) || token in Laws.Tokens(y, seps))
    ensures token in Laws.Tokens(x + " " + y, seps)
  {
    var a, b := Split(x, " "), Split(y, " ");
    TailOfTail(seps);
    SplitAtSeparator(x, " ", y);
    if token in Laws.Tokens(x, seps) {
      var k := Laws.TokensComeFromParts(a, [""], token);
      assert (a + b)[k] == a[k];
      TokenOfPart(a + b, [""], k, token);
    } else {
      var k := Laws.TokensComeFromParts(b, [""], token);
      assert (a + b)[|a| + k] == b[k];
      TokenOfPart(a + b, [""], |a| + k, token);
    }
  }

  /** A full stop at the end of the text is at the end of its last token. */
  lemma StopAtEnd(x: string, token: string)
    requires token in Laws.Tokens(x + ".", [" ", ""])
    ensures KeptToken(token, x, [" ", ""])
  {
    var a, b := Split(x, " "), Split(x + ".", " ");
    TailOfTail([" ", ""]);
    SplitPush(x, '.', " ");
    assert x + "." == x + ['.'];
    var k := Laws.TokensComeFromParts(b, [""], token);
    assert token == b[k];
    if k < |a| - 1 {
      assert b[k] == a[k];
      TokenOfPart(a, [""], k, token);
    } else {
      assert token == a[|a| - 1] + ['.'];
      assert token[..|token| - 1] == a[|a| - 1];
      TokenOfPart(a, [""], |a| - 1, a[|a| - 1]);
    }
  }

  lemma StopPart(x: string, token: string) returns (k: nat)
    requires token in Laws.TokensOfAll(Split(x + ".", ". "), [" ", ""])
    ensures k < |Split(x, ". ")| && KeptToken(token, Split(x, ". ")[k], [" ", ""])
  {
    var a := Split(x, ". ");
    assert x + "." == x + ['.'];
    SplitPush(x, '.', ". ");
    k := Laws.TokensComeFromParts(Split(x + ".", ". "), [" ", ""], token);
    if k == |a| - 1 {
      assert a[k] + ['.'] == a[k] + ".";
      StopAtEnd(a[k], token);
    }
  }

  /** A sentence that ends in a full stop is cut off there, and the full stop is lost. */
  lemma StopBetween(x: string, y: string, token: string)
    requires token in Laws.Tokens(x + ".", [". ", " ", ""])
    ensures KeptToken(token, x + "." + " " + y, [". ", " ", ""])
  {
    var seps, a, all := [". ", " ", ""], Split(x, ". "), x + "." + " " + y;
    TailOfTail(seps);
    SplitAtSeparator(x, ". ", y);
    assert all == x + ". " + y;
    var k := StopPart(x, token);
    assert (a + Split(y, ". "))[k] == a[k];
    KeptByPart(all, seps, k, token);
  }

  lemma AfterStop(x: string, y: string, token: string)
    requires token in Laws.Tokens(y, [". ", " ", ""])
    ensures token in Laws.Tokens(x + "." + " " + y, [". ", " ", ""])
  {
    var seps, a, b, all := [". ", " ", ""], Split(x, ". "), Split(y, ". "), x + "." + " " + y;
    TailOfTail(seps);
    SplitAtSeparator(x, ". ", y);
    assert all == x + ". " + y;
    var k := Laws.TokensComeFromParts(b, [" ", ""], token);
    assert (a + b)[|a| + k] == b[k];
    KeptByPart(all, seps, |a| + k, token);
  }

  /** `all` are the parts of both, with the last of a and the first of b as one. */
  ghost predicate Merged(a: seq<string>, b: seq<string>, all: seq<string>)
    requires a != [] && b != []
  {
    && |all| == |a| + |b| - 1
    && (forall k | 0 <= k < |a| - 1 :: all[k] == a[k])
    && (forall k | 0 < k < |b| :: all[|a| - 1 + k] == b[k])
  }

  lemma PartsBetween(x: string, y: string, sep: string)
    requires sep != "" && Apart(x, ' ', sep)
    ensures var a, b, all := Split(x, sep), Split(y, sep), Split(x + " " + y, sep);
      Merged(a, b, all) && all[|a| - 1] == a[|a| - 1] + " " + b[0]
  {
    SplitAround(x, ' ', y, sep);
    assert x + " " + y == x + [' '] + y;
    GrowMerges(Split(x, sep), Split(y, sep));
  }

  lemma GrowMerges(a: seq<string>, b: seq<string>)
    requires a != [] && b != []
    ensures var all := GrowLast(a, [' '] + b[0], b[1..]);
      Merged(a, b, all) && all[|a| - 1] == a[|a| - 1] + " " + b[0]
  {
    assert a[|a| - 1] + ([' '] + b[0]) == a[|a| - 1] + " " + b[0];
  }

  lemma TokenOfFirst(a: seq<string>, b: seq<string>, all: seq<string>, rest: seq<string>, token: string)
    returns (k: nat)
    requires a != [] && b != [] && Merged(a, b, all) && token in Laws.TokensOfAll(a, rest)
    requires token in Laws.Tokens(a[|a| - 1], rest) ==> KeptToken(token, all[|a| - 1], rest)
    ensures k < |all| && KeptToken(token, all[k], rest)
  {
    k := Laws.TokensComeFromParts(a, rest, token);
  }

  lemma TokenOfSecond(a: seq<string>, b: seq<string>, all: seq<string>, rest: seq<string>, token: string)
    returns (k: nat)
    requires a != [] && b != [] && Merged(a, b, all) && token in Laws.TokensOfAll(b, rest)
    requires token in Laws.Tokens(b[0], rest) ==> token in Laws.Tokens(all[|a| - 1], rest)
    ensures k < |all| && token in Laws.Tokens(all[k], rest)
  {
    var m := Laws.TokensComeFromParts(b, rest, token);
    k := |a| - 1 + m;
  }

  /** Two texts with a space between them have the tokens of both, but for a full stop before the space. */
  lemma {:induction false} TokensBetween(x: string, y: string, seps: seq<string>, token: string)
    requires IsTail(seps)
    ensures token in Laws.Tokens(x, seps) ==> KeptToken(token, x + " " + y, seps)
    ensures token in Laws.Tokens(y, seps) ==> token in Laws.Tokens(x + " " + y, seps)
    decreases |seps|
  {
    TailOfTail(seps);
    if seps[0] == " " {
      if token in Laws.Tokens(x, seps) || token in Laws.Tokens(y, seps) {
        SpaceBetween(x, y, seps, token);
      }
    } else if seps[0] == ". " && x != "" && x[|x| - 1] == '.' {
      assert x == x[..|x| - 1] + ".";
      if token in Laws.Tokens(x, seps) {
        StopBetween(x[..|x| - 1], y, token);
      }
      if token in Laws.Tokens(y, seps) {
        AfterStop(x[..|x| - 1], y, token);
      }
    } else {
      var a, b := Split(x, seps[0]), Split(y, seps[0]);
      TokensBetween(a[|a| - 1], b[0], seps[1..], token);
      PartsBetween(x, y, seps[0]);
      if token in Laws.Tokens(x, seps) {
        var k := TokenOfFirst(a, b, Split(x + " " + y, seps[0]), seps[1..], token);
        KeptByPart(x + " " + y, seps, k, token);
      }
      if token in Laws.Tokens(y, seps) {
        var k := TokenOfSecond(a, b, Split(x + " " + y, seps[0]), seps[1..], token);
        KeptByPart(x + " " + y, seps, k, token);
      }
    }
  }

  lemma {:induction false} SentenceTokens(g: seq<string>, k: nat, token: string)
    requires k < |g| && token in Laws.Tokens(g[k], SEPARATORS)
    ensures KeptToken(token, Join(" ", g), SEPARATORS)
    decreases k
  {
    if |g| > 1 {
      var later := Join(" ", g[1..]);
      assert Join(" ", g) == g[0] + " " + later;
      if k == 0 {
        TokensBetween(g[0], later, SEPARATORS, token);
      } else {
        SentenceTokens(g[1..], k - 1, token);
        TokensBetween(g[0], later, SEPARATORS, token);
        if token !in Laws.Tokens(later, SEPARATORS) {
          TokensBetween(g[0], later, SEPARATORS, token[..|token| - 1]);
        }
      }
    }
  }

  // ---------------------------------------------------------------- from groups to chunks

  /** As the sentences come from s.strip() for s in ... if s.strip(). */
  predicate Trimmed(s: string) {
    s != "" && !IsSpace(s[0]) && !IsSpace(s[|s| - 1])
  }

  lemma {:induction false} JoinIsTrimmed(g: seq<string>)
    requires g != [] && forall i | 0 <= i < |g| :: Trimmed(g[i])
    ensures Trimmed(Join(" ", g))
  {
    if |g| > 1 {
      JoinIsTrimmed(g[1..]);
      var s := Join(" ", g);
      assert s[0] == g[0][0];
      assert s[|s| - 1] == Join(" ", g[1..])[|Join(" ", g[1..])| - 1];
    }
  }

  /** Taking blanks off both ends of a text leaves what is not blank of each of its pieces. */
  lemma StripInside(piece: string, whole: string)
    requires Occurs(piece, whole) && !IsBlank(piece)
    ensures Occurs(Strip(piece), Strip(whole))
  {
    var n := CoreInside(piece, whole);
    var u, v := StripCuts(whole);
    InsideOf(whole, u, Strip(whole), v, n, |Strip(piece)|);
  }

  /** Where the piece, without blanks at its ends, is in the text. */
  lemma CoreInside(piece: string, whole: string) returns (n: nat)
    requires Occurs(piece, whole) && !IsBlank(piece)
    ensures Strip(piece) != "" && n + |Strip(piece)| <= |whole| && whole[n..n + |Strip(piece)|] == Strip(piece)
    ensures !IsSpace(whole[n]) && !IsSpace(whole[n + |Strip(piece)| - 1])
  {
    var p, q :| whole == p + piece + q;
    var a, b := StripCuts(piece);
    var core := Strip(piece);
    assert core != "" by {
      StripShrinks(piece);
    }
    n := |p| + |a|;
    Reach(whole, p, a, core, b, q);
  }

  lemma Reach(whole: string, p: string, a: string, core: string, b: string, q: string)
    requires whole == p + (a + core + b) + q && core != ""
    ensures var n := |p| + |a|;
      && n + |core| <= |whole| && whole[n..n + |core|] == core
      && whole[n] == core[0] && whole[n + |core| - 1] == core[|core| - 1]
  {
    var n := |p| + |a|;
    Around(p, a, core, b, q);
    assert whole[n..n + |core|] == core;
  }

  lemma BlankEnds(whole: string, u: string, m: string, v: string)
    requires whole == u + m + v && IsBlank(u) && IsBlank(v)
    ensures forall i | 0 <= i < |whole| && (i < |u| || i >= |u| + |m|) :: IsSpace(whole[i])
  {
  }

  /** A stretch that starts and ends with a character is not in the blanks around the text. */
  lemma InsideOf(whole: string, u: string, m: string, v: string, n: nat, length: nat)
    requires whole == u + m + v && IsBlank(u) && IsBlank(v) && length > 0 && n + length <= |whole|
    requires !IsSpace(whole[n]) && !IsSpace(whole[n + length - 1])
    ensures Occurs(whole[n..n + length], m)
  {
    BlankEnds(whole, u, m, v);
    var k := n - |u|;
    assert m == whole[|u|..|u| + |m|];
    assert m == m[..k] + whole[n..n + length] + m[k + length..];
    OccursWithin(whole[n..n + length], m, m[..k], m[k + length..]);
  }

  lemma {:induction false} ConcatHas(groups: seq<seq<string>>, i: nat, c: string)
    requires i < |groups| && c in groups[i]
    ensures c in Laws.Concat(groups)
  {
    if i > 0 {
      ConcatHas(groups[1..], i - 1, c);
    }
  }

  lemma LimitedHas(chunks: seq<string>, maxSize: nat, i: nat, c: string)
    requires maxSize >= 1 && i < |chunks| && c in LimitedOne(chunks[i], maxSize)
    ensures c in Limited(chunks, maxSize)
  {
    ConcatHas(LimitedEach(chunks, maxSize), i, c);
  }

  lemma {:induction false} StrippedHas(chunks: seq<string>, c: string)
    requires c in chunks && NotBlank(c)
    ensures Strip(c) in Stripped(chunks)
  {
    var n := |chunks| - 1;
    if c != chunks[n] {
      assert c in chunks[..n];
      StrippedHas(chunks[..n], c);
    }
  }

  /** What EnforceLimit makes of a group ends up in the result, stripped. */
  lemma ChunkIsReturned(sentences: seq<string>, distances: seq<real>, percentile: real, maxSize: nat, i: nat, c: string)
    requires 0.0 <= percentile <= 100.0 && maxSize >= 1 && |sentences| >= 2
    requires i < |Groups(sentences, distances, percentile)| && NotBlank(c)
    requires c in LimitedOne(Join(" ", Groups(sentences, distances, percentile)[i]), maxSize)
    ensures Strip(c) in SemanticChunks(sentences, distances, percentile, maxSize)
  {
    var joined := JoinAll(Groups(sentences, distances, percentile));
    LimitedHas(joined, maxSize, i, c);
    StrippedHas(Limited(joined, maxSize), c);
  }

  ghost predicate GroupsTrimmed(groups: seq<seq<string>>) {
    forall i | 0 <= i < |groups| :: groups[i] != [] && forall k | 0 <= k < |groups[i]| :: Trimmed(groups[i][k])
  }

  lemma {:induction false} GroupsOfTrimmed(groups: seq<seq<string>>)
    requires forall g | g in groups :: g != []
    requires forall s | s in Laws.Concat(groups) :: Trimmed(s)
    ensures GroupsTrimmed(groups)
  {
    if groups != [] {
      var g, later := groups[0], groups[1..];
      assert g in groups && forall h | h in later :: h in groups;
      GroupsOfTrimmed(later);
      forall i | 0 <= i < |groups|
        ensures groups[i] != [] && forall k | 0 <= k < |groups[i]| :: Trimmed(groups[i][k])
      {
        if i == 0 {
          assert forall k | 0 <= k < |g| :: g[k] in g;
        } else {
          assert groups[i] == later[i - 1];
        }
      }
    }
  }

  /** The piece, without blanks at its ends, is in some chunk. */
  ghost predicate PieceKept(piece: string, chunks: seq<string>) {
    exists c :: c in chunks && Occurs(Strip(piece), c)
  }

  ghost predicate TokenKept(token: string, maxSize: nat, chunks: seq<string>)
    requires maxSize >= 1
  {
    forall piece | piece in Laws.Pieces(Config(maxSize, 0), token) && NotBlank(piece) :: PieceKept(piece, chunks)
  }

  /** A group that keeps to the limit is returned whole. */
  lemma FittingGroupIsWhole(sentences: seq<string>, distances: seq<real>, percentile: real, maxSize: nat, i: nat)
    requires 0.0 <= percentile <= 100.0 && maxSize >= 1 && |sentences| >= 2 && |distances| == |sentences| - 1
    requires forall s | s in sentences :: Trimmed(s)
    requires i < |Groups(sentences, distances, percentile)|
    requires |Join(" ", Groups(sentences, distances, percentile)[i])| <= maxSize
    ensures var text := Join(" ", Groups(sentences, distances, percentile)[i]);
      text in SemanticChunks(sentences, distances, percentile, maxSize)
  {
    var g := Groups(sentences, distances, percentile)[i];
    GroupsPartition(sentences, distances, percentile);
    GroupsOfTrimmed(Groups(sentences, distances, percentile));
    JoinIsTrimmed(g);
    StripKeeps(Join(" ", g));
    ChunkIsReturned(sentences, distances, percentile, maxSize, i, Join(" ", g));
  }

  lemma TooLongPieceKept(sentences: seq<string>, distances: seq<real>, percentile: real, maxSize: nat, i: nat,
                         token: string, piece: string)
    requires 0.0 <= percentile <= 100.0 && maxSize >= 1 && |sentences| >= 2
    requires i < |Groups(sentences, distances, percentile)|
    requires var text := Join(" ", Groups(sentences, distances, percentile)[i]);
      |text| > maxSize && Trimmed(text) && token in Laws.Tokens(text, SEPARATORS)
    requires piece in Laws.Pieces(Config(maxSize, 0), token) && NotBlank(piece)
    ensures PieceKept(piece, SemanticChunks(sentences, distances, percentile, maxSize))
  {
    var cfg, text := Config(maxSize, 0), Join(" ", Groups(sentences, distances, percentile)[i]);
    StripKeeps(text);
    Laws.NoTextIsLost(cfg, text, token, piece);
    var c :| c in ChunksOf(cfg, text) && Occurs(piece, c);
    if IsBlank(c) {
      BlankIsInherited(piece, c);
    }
    ChunkIsReturned(sentences, distances, percentile, maxSize, i, c);
    StripInside(piece, c);
  }

  /** Every piece of every token of a group is kept, whether the group keeps to the limit or not. */
  lemma GroupTextIsKept(sentences: seq<string>, distances: seq<real>, percentile: real, maxSize: nat, i: nat,
                        token: string)
    requires 0.0 <= percentile <= 100.0 && maxSize >= 1 && |sentences| >= 2 && |distances| == |sentences| - 1
    requires forall s | s in sentences :: Trimmed(s)
    requires i < |Groups(sentences, distances, percentile)|
    requires token in Laws.Tokens(Join(" ", Groups(sentences, distances, percentile)[i]), SEPARATORS)
    ensures TokenKept(token, maxSize, SemanticChunks(sentences, distances, percentile, maxSize))
  {
    var groups := Groups(sentences, distances, percentile);
    var text := Join(" ", groups[i]);
    var chunks := SemanticChunks(sentences, distances, percentile, maxSize);
    GroupsPartition(sentences, distances, percentile);
    GroupsOfTrimmed(groups);
    JoinIsTrimmed(groups[i]);
    forall piece | piece in Laws.Pieces(Config(maxSize, 0), token) && NotBlank(piece) ensures PieceKept(piece, chunks) {
      if |text| > maxSize {
        TooLongPieceKept(sentences, distances, percentile, maxSize, i, token, piece);
      } else {
        FittingGroupIsWhole(sentences, distances, percentile, maxSize, i);
        PieceOccurs(Config(maxSize, 0), token, piece);
        Laws.TokenOccurs(text, SEPARATORS, token);
        OccursTransitive(piece, token, text);
        StripShrinks(piece);
        OccursTransitive(Strip(piece), piece, text);
      }
    }
  }

  lemma {:induction false} WindowOccurs(cfg: Config, text: string, start: nat, i: nat)
    requires cfg.Valid() && i < |Windows(cfg, text, start)|
    ensures Occurs(Windows(cfg, text, start)[i], text)
    decreases |text| - start
  {
    if i == 0 {
      var stop := Stop(|text|, start + cfg.size);
      if start < stop {
        OccursWithin(text[start..stop], text, text[..start], text[stop..]);
      } else {
        OccursWithin("", text, "", text);
      }
    } else {
      WindowOccurs(cfg, text, start + cfg.size - cfg.overlap, i - 1);
    }
  }

  lemma PieceOccurs(cfg: Config, token: string, piece: string)
    requires cfg.Valid() && piece in Laws.Pieces(cfg, token)
    ensures Occurs(piece, token)
  {
    if |token| <= cfg.size {
      OccursWithin(token, token, "", "");
    } else {
      var i :| 0 <= i < |HardPieces(cfg, token)| && HardPieces(cfg, token)[i] == piece;
      WindowOccurs(cfg, token, 0, i);
    }
  }

  lemma {:induction false} GroupOfSentence(groups: seq<seq<string>>, s: string) returns (i: nat, k: nat)
    requires s in Laws.Concat(groups)
    ensures i < |groups| && k < |groups[i]| && groups[i][k] == s
    decreases |groups|
  {
    if s in groups[0] {
      i := 0;
      k :| 0 <= k < |groups[0]| && groups[0][k] == s;
    } else {
      i, k := GroupOfSentence(groups[1..], s);
      i := i + 1;
    }
  }

  /**
   No text of a sentence is lost: every token of it that fits the limit is in some chunk, of a
   longer one every hard-split window is, each without blanks at its ends. The one exception is
   a full stop at the end of a token: it goes where a group over the limit is cut at ". ".
   */
  lemma SentenceTextIsKept(sentences: seq<string>, distances: seq<real>, percentile: real, maxSize: nat, s: string,
                           token: string)
    requires 0.0 <= percentile <= 100.0 && maxSize >= 1 && |sentences| >= 2 && |distances| == |sentences| - 1
    requires forall s | s in sentences :: Trimmed(s)
    requires s in sentences && token in Laws.Tokens(s, SEPARATORS)
    ensures var chunks := SemanticChunks(sentences, distances, percentile, maxSize);
      || TokenKept(token, maxSize, chunks)
      || (token != "" && token[|token| - 1] == '.' && TokenKept(token[..|token| - 1], maxSize, chunks))
  {
    var groups := Groups(sentences, distances, percentile);
    GroupsPartition(sentences, distances, percentile);
    var i, k := GroupOfSentence(groups, s);
    SentenceTokens(groups[i], k, token);
    if token in Laws.Tokens(Join(" ", groups[i]), SEPARATORS) {
      GroupTextIsKept(sentences, distances, percentile, maxSize, i, token);
    } else {
      GroupTextIsKept(sentences, distances, percentile, maxSize, i, token[..|token| - 1]);
    }
  }

  lemma {:induction false} StrippedAreTrimmed(chunks: seq<string>)
    ensures forall c | c in Stripped(chunks) :: Trimmed(c)
  {
    if chunks != [] {
      var last := chunks[|chunks| - 1];
      StrippedAreTrimmed(chunks[..|chunks| - 1]);
      StripShrinks(last);
      var before, after := StripCuts(last);
    }
  }

  /** No chunk has blanks at its ends. */
  lemma ChunksAreTrimmed(sentences: seq<string>, distances: seq<real>, percentile: real, maxSize: nat)
    requires 0.0 <= percentile <= 100.0 && maxSize >= 1 && |sentences| >= 2
    ensures forall c | c in SemanticChunks(sentences, distances, percentile, maxSize) ::
      c != "" && !IsSpace(c[0]) && !IsSpace(c[|c| - 1])
  {
    StrippedAreTrimmed(Limited(JoinAll(Groups(sentences, distances, percentile)), maxSize));
  }

  // ---------------------------------------------------------------- groups that all fit

  lemma {:induction false} ConcatSingles(groups: seq<seq<string>>, chunks: seq<string>)
    requires |groups| == |chunks| && forall i | 0 <= i < |chunks| :: groups[i] == [chunks[i]]
    ensures Laws.Concat(groups) == chunks
  {
    if chunks != [] {
      ConcatSingles(groups[1..], chunks[1..]);
    }
  }

  lemma NothingLimited(chunks: seq<string>, maxSize: nat)
    requires maxSize >= 1 && forall i | 0 <= i < |chunks| :: |chunks[i]| <= maxSize
    ensures Limited(chunks, maxSize) == chunks
  {
    ConcatSingles(LimitedEach(chunks, maxSize), chunks);
  }

  lemma {:induction false} NothingStripped(chunks: seq<string>)
    requires forall i | 0 <= i < |chunks| :: Trimmed(chunks[i])
    ensures Stripped(chunks) == chunks
  {
    if chunks != [] {
      var n := |chunks| - 1;
      NothingStripped(chunks[..n]);
      StripKeeps(chunks[n]);
      assert chunks == chunks[..n] + [chunks[n]];
    }
  }

  /** If all groups keep to the limit, the result is the groups in order, each with spaces between its sentences. */
  lemma FittingGroupsAreChunks(sentences: seq<string>, distances: seq<real>, percentile: real, maxSize: nat)
    requires 0.0 <= percentile <= 100.0 && maxSize >= 1 && |sentences| >= 2 && |distances| == |sentences| - 1
    requires forall s | s in sentences :: Trimmed(s)
    requires forall i | 0 <= i < |Groups(sentences, distances, percentile)| ::
      |Join(" ", Groups(sentences, distances, percentile)[i])| <= maxSize
    ensures var groups := Groups(sentences, distances, percentile);
      var chunks := SemanticChunks(sentences, distances, percentile, maxSize);
      |chunks| == |groups| && forall i | 0 <= i < |groups| :: chunks[i] == Join(" ", groups[i])
  {
    var groups := Groups(sentences, distances, percentile);
    var joined := JoinAll(groups);
    GroupsPartition(sentences, distances, percentile);
    GroupsOfTrimmed(groups);
    forall i | 0 <= i < |joined| ensures Trimmed(joined[i]) {
      JoinIsTrimmed(groups[i]);
    }
    NothingLimited(joined, maxSize);
    NothingStripped(joined);
  }
}
