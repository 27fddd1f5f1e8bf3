/** RecursiveTextChunker of src/ingestion/pipeline.py. */
module RecursiveChunking {
  import opened Common
  import opened Texts

  const SEPARATORS: seq<string> := ["\n\n", "\n", ". ", " ", ""]

  /** chunk_size and chunk_overlap. Valid is all that the constructor tests; either may be negative. */
  datatype Config = Config(size: int, overlap: int) {
    predicate Valid() {
      overlap < size
    }
  }

  // ---------------------------------------------------------------- _hard_split and _apply_overlap

  /** Where a slice of a sequence of length n stops: a negative index counts from the end. */
  function Stop(n: nat, end: int): nat {
    if end < 0 then Max(0, n + end) else Min(n, end)
  }

  /** s[start:end] */
  function Slice(s: string, start: nat, end: int): string {
    if start < Stop(|s|, end) then s[start..Stop(|s|, end)] else ""
  }

  /** s[:n] */
  function Take(s: string, n: int): string {
    s[..Stop(|s|, n)]
  }

  /** The windows text[start:start + size], size - overlap apart. */
  function Windows(cfg: Config, text: string, start: nat): seq<string>
    requires cfg.Valid()
    decreases |text| - start
  {
    if start >= |text| then []
    else [Slice(text, start, start + cfg.size)] + Windows(cfg, text, start + cfg.size - cfg.overlap)
  }

  function HardPieces(cfg: Config, text: string): seq<string>
    requires cfg.Valid()
  {
    Windows(cfg, text, 0)
  }

  /** Every chunk but the last is extended by the beginning of the next. */
  function Overlapped(chunks: seq<string>, overlap: int): (r: seq<string>)
    ensures |r| == |chunks|
  {
    seq(|chunks|, i requires 0 <= i < |chunks| =>
      if i < |chunks| - 1 then chunks[i] + Take(chunks[i + 1], overlap) else chunks[i])
  }

  // ---------------------------------------------------------------- _split

  predicate IsHard(seps: seq<string>) {
    seps == [] || seps[0] == ""
  }

  function Candidate(current: string, sep: string, part: string): string {
    if current != "" then current + sep + part else part
  }

  function SplitText(cfg: Config, text: string, seps: seq<string>): seq<string>
    requires cfg.Valid()
    decreases |seps|, 0
  {
    if |text| <= cfg.size then [text]
    else if IsHard(seps) then HardPieces(cfg, text)
    else Overlapped(Pack(cfg, Split(text, seps[0]), "", seps[0], seps[1..]), cfg.overlap)
  }

  /**
   The loop over the parts. An oversized part is split further, and `current` survives it
   although it has just been emitted.
   */
  function Pack(cfg: Config, parts: seq<string>, current: string, sep: string, rest: seq<string>): seq<string>
    requires cfg.Valid()
    decreases |rest|, |parts| + 1
  {
    if parts == [] then
      if current != "" then [current] else []
    else
      var part, candidate := parts[0], Candidate(current, sep, parts[0]);
      if |candidate| <= cfg.size then Pack(cfg, parts[1..], candidate, sep, rest)
      else
        (if current != "" then [current] else [])
        + if |part| > cfg.size && rest != [] then
            SplitText(cfg, part, rest) + Pack(cfg, parts[1..], current, sep, rest)
          else
            Pack(cfg, parts[1..], part, sep, rest)
  }

  /** One turn of the loop, with `done` already emitted. */
  lemma PackOne(cfg: Config, part: string, parts: seq<string>, current: string, sep: string, rest: seq<string>,
                done: seq<string>)
    requires cfg.Valid()
    ensures done + Pack(cfg, [part] + parts, current, sep, rest) ==
      var candidate := Candidate(current, sep, part);
      if |candidate| <= cfg.size then done + Pack(cfg, parts, candidate, sep, rest)
      else
        var emitted := if current != "" then done + [current] else done;
        if |part| > cfg.size && rest != [] then
          emitted + SplitText(cfg, part, rest) + Pack(cfg, parts, current, sep, rest)
        else emitted + Pack(cfg, parts, part, sep, rest)
  {
    var candidate := Candidate(current, sep, part);
    assert ([part] + parts)[1..] == parts;
    if |candidate| > cfg.size {
      var emitted: seq<string> := if current != "" then [current] else [];
      if |part| > cfg.size && rest != [] {
        var finer := SplitText(cfg, part, rest);
        Regroup(done, emitted, finer, Pack(cfg, parts, current, sep, rest));
      } else {
        Regroup(done, emitted, [], Pack(cfg, parts, part, sep, rest));
      }
    }
  }

  /** c.strip() is not empty; see Texts.StripShrinks. */
  predicate NotBlank(c: string) {
    !IsBlank(c)
  }

  function Filtered(chunks: seq<string>): seq<string> {
    if chunks == [] then []
    else
      var last := chunks[|chunks| - 1];
      Filtered(chunks[..|chunks| - 1]) + (if NotBlank(last) then [last] else [])
  }

  function ChunksOf(cfg: Config, text: string): seq<string>
    requires cfg.Valid()
  {
    if Strip(text) == "" then [] else Filtered(SplitText(cfg, Strip(text), SEPARATORS))
  }

  // ---------------------------------------------------------------- the object

  class RecursiveTextChunker {
    const cfg: Config

    constructor (chunkSize: int, chunkOverlap: int)
      requires chunkOverlap < chunkSize
      ensures cfg == Config(chunkSize, chunkOverlap)
    {
      cfg := Config(chunkSize, chunkOverlap);
    }

    /** None stands for the ValueError of the constructor. */
    static method Make(chunkSize: int, chunkOverlap: int) returns (r: Option<RecursiveTextChunker>)
      ensures r.None? <==> chunkOverlap >= chunkSize
      ensures r.Some? ==> fresh(r.value) && r.value.cfg == Config(chunkSize, chunkOverlap)
    {
      if chunkOverlap >= chunkSize {
        return None;
      }
      var c := new RecursiveTextChunker(chunkSize, chunkOverlap);
      return Some(c);
    }

    method HardSplit(text: string) returns (chunks: seq<string>)
      requires cfg.Valid()
      ensures chunks == HardPieces(cfg, text)
    {
      chunks := [];
      var start := 0;
      while start < |text|
        invariant 0 <= start
        invariant chunks + Windows(cfg, text, start) == HardPieces(cfg, text)
        decreases |text| - start
      {
        var end := start + cfg.size;
        var window := Slice(text, start, end);
        assert chunks + Windows(cfg, text, start) == (chunks + [window]) + Windows(cfg, text, end - cfg.overlap);
        chunks := chunks + [window];
        start := end - cfg.overlap;
      }
    }

    method ApplyOverlap(chunks: seq<string>) returns (result: seq<string>)
      ensures result == Overlapped(chunks, cfg.overlap)
    {
      if |chunks| <= 1 || cfg.overlap == 0 {
        assert forall i | 0 <= i < |chunks| - 1 :: chunks[i] + Take(chunks[i + 1], 0) == chunks[i];
        return chunks;
      }
      result := [];
      var i := 0;
      while i < |chunks|
        invariant 0 <= i <= |chunks|
        invariant result == Overlapped(chunks, cfg.overlap)[..i]
      {
        if i < |chunks| - 1 {
          result := result + [chunks[i] + Take(chunks[i + 1], cfg.overlap)];
        } else {
          result := result + [chunks[i]];
        }
        i := i + 1;
      }
    }

    method Split(text: string, separators: seq<string>) returns (chunks: seq<string>)
      requires cfg.Valid()
      ensures chunks == SplitText(cfg, text, separators)
      decreases |separators|, 0
    {
      if |text| <= cfg.size {
        return [text];
      }
      if IsHard(separators) {
        chunks := HardSplit(text);
        return;
      }
      var sep, remaining := separators[0], separators[1..];
      var parts := Texts.Split(text, sep);
      chunks := PackParts(parts, sep, remaining);
      chunks := ApplyOverlap(chunks);
    }

    /** One turn of the loop of _split; `later` are the parts still to come. */
    method PackPart(part: string, current: string, done: seq<string>, sep: string, remaining: seq<string>,
                    ghost later: seq<string>) returns (next: string, chunks: seq<string>)
      requires cfg.Valid()
      ensures chunks + Pack(cfg, later, next, sep, remaining)
           == done + Pack(cfg, [part] + later, current, sep, remaining)
      decreases |remaining|, 1
    {
      PackOne(cfg, part, later, current, sep, remaining, done);
      var candidate := if current != "" then current + sep + part else part;
      if |candidate| <= cfg.size {
        return candidate, done;
      }
      chunks := if current != "" then done + [current] else done;
      if |part| > cfg.size && remaining != [] {
        var finer := Split(part, remaining);
        return current, chunks + finer;
      }
      return part, chunks;
    }

    /** The greedy loop of _split. */
    method PackParts(parts: seq<string>, sep: string, remaining: seq<string>) returns (chunks: seq<string>)
      requires cfg.Valid()
      ensures chunks == Pack(cfg, parts, "", sep, remaining)
      decreases |remaining|, 2
    {
      chunks := [];
      var current := "";
      var i := 0;
      ghost var all := Pack(cfg, parts, "", sep, remaining);
      while i < |parts|
        invariant 0 <= i <= |parts|
        invariant chunks + Pack(cfg, parts[i..], current, sep, remaining) == all
      {
        ghost var later := parts[i + 1..];
        assert parts[i..] == [parts[i]] + later;
        current, chunks := PackPart(parts[i], current, chunks, sep, remaining, later);
        i := i + 1;
      }
      if current != "" {
        chunks := chunks + [current];
      }
    }

    method Chunk(text: string) returns (chunks: seq<string>)
      requires cfg.Valid()
      ensures chunks == ChunksOf(cfg, text)
    {
      var stripped := Strip(text);
      if stripped == "" {
        return [];
      }
      var all := Split(stripped, SEPARATORS);
      chunks := KeepNotBlank(all);
    }

    /** [c for c in chunks if c.strip()] */
    static method KeepNotBlank(all: seq<string>) returns (chunks: seq<string>)
      ensures chunks == Filtered(all)
    {
      chunks := [];
      var i := 0;
      while i < |all|
        invariant 0 <= i <= |all|
        invariant chunks == Filtered(all[..i])
      {
        assert all[..i + 1][..i] == all[..i];
        if NotBlank(all[i]) {
          chunks := chunks + [all[i]];
        }
        i := i + 1;
      }
      assert all[..i] == all;
    }
  }
}
