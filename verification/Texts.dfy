/** The string operations that src/ingestion/pipeline.py borrows from Python. */
module Texts {

  /** The characters str.strip() removes. */
  predicate IsSpace(c: char) {
    || '\t' <= c <= '\r' || '\U{1C}' <= c <= ' ' || c == '\U{85}' || c == '\U{A0}' || c == '\U{1680}'
    || '\U{2000}' <= c <= '\U{200A}' || c == '\U{2028}' || c == '\U{2029}' || c == '\U{202F}'
    || c == '\U{205F}' || c == '\U{3000}'
  }

  /** The 29 characters one by one: tab to carriage return, the four separators, and Unicode's spaces. */
  lemma SpacesAre(c: char)
    ensures IsSpace(c) <==>
      || c in ['\t', '\n', '\U{0B}', '\U{0C}', '\r', '\U{1C}', '\U{1D}', '\U{1E}', '\U{1F}', ' ']
      || c in ['\U{85}', '\U{A0}', '\U{1680}', '\U{2028}', '\U{2029}', '\U{202F}', '\U{205F}', '\U{3000}']
      || c in ['\U{2000}', '\U{2001}', '\U{2002}', '\U{2003}', '\U{2004}', '\U{2005}', '\U{2006}', '\U{2007}']
      || c in ['\U{2008}', '\U{2009}', '\U{200A}']
  {
  }

  predicate IsBlank(s: string) {
    forall i | 0 <= i < |s| :: IsSpace(s[i])
  }

  /** str.strip() */
  function Strip(s: string): string {
    if s == "" then ""
    else if IsSpace(s[0]) then Strip(s[1..])
    else if IsSpace(s[|s| - 1]) then Strip(s[..|s| - 1])
    else s
  }

  /** str.split(sep): cut at the leftmost occurrences that do not overlap. */
  function Split(s: string, sep: string): (parts: seq<string>)
    requires sep != ""
    ensures parts != []
    decreases |s|
  {
    if |s| < |sep| then [s]
    else if sep <= s then [""] + Split(s[|sep|..], sep)
    else
      var rest := Split(s[1..], sep);
      [[s[0]] + rest[0]] + rest[1..]
  }

  /** sep.join(parts) */
  function Join(sep: string, parts: seq<string>): string {
    if parts == [] then ""
    else if |parts| == 1 then parts[0]
    else parts[0] + sep + Join(sep, parts[1..])
  }

  lemma JoinEmpty(sep: string, parts: seq<string>)
    requires parts != []
    ensures Join(sep, [""] + parts) == sep + Join(sep, parts)
  {
    assert ([""] + parts)[1..] == parts;
    assert "" + sep == sep;
  }

  lemma JoinFirst(sep: string, parts: seq<string>, c: char)
    requires parts != []
    ensures Join(sep, [[c] + parts[0]] + parts[1..]) == [c] + Join(sep, parts)
  {
    var parts' := [[c] + parts[0]] + parts[1..];
    assert parts'[1..] == parts[1..];
    if |parts| > 1 {
      assert [c] + parts[0] + sep + Join(sep, parts[1..]) == [c] + (parts[0] + sep + Join(sep, parts[1..]));
    }
  }

  /** Joining the parts with the separator they were cut at gives the text again. */
  lemma {:induction false} SplitRejoins(s: string, sep: string)
    requires sep != ""
    ensures Join(sep, Split(s, sep)) == s
    decreases |s|
  {
    if |s| >= |sep| {
      if sep <= s {
        SplitRejoins(s[|sep|..], sep);
        JoinEmpty(sep, Split(s[|sep|..], sep));
        assert s == sep + s[|sep|..];
      } else {
        SplitRejoins(s[1..], sep);
        JoinFirst(sep, Split(s[1..], sep), s[0]);
        assert s == [s[0]] + s[1..];
      }
    }
  }

  ghost predicate Occurs(part: string, whole: string) {
    exists before: string, after: string :: whole == before + part + after
  }

  lemma OccursWithin(part: string, whole: string, before: string, after: string)
    requires whole == before + part + after
    ensures Occurs(part, whole)
  {
  }

  lemma OccursTransitive(a: string, b: string, c: string)
    requires Occurs(a, b) && Occurs(b, c)
    ensures Occurs(a, c)
  {
    var p, s :| b == p + a + s;
    var q, t :| c == q + b + t;
    assert c == (q + p) + a + (s + t);
  }

  lemma {:induction false} FirstPartIsPrefix(s: string, sep: string)
    requires sep != ""
    ensures Split(s, sep)[0] <= s
    decreases |s|
  {
    if |s| >= |sep| && !(sep <= s) {
      FirstPartIsPrefix(s[1..], sep);
    }
  }

  lemma OccursInTail(c: char, part: string, whole: string)
    requires Occurs(part, [c] + whole) && !(part <= [c] + whole)
    ensures Occurs(part, whole)
  {
    var p, q :| [c] + whole == p + part + q;
    assert p == "" ==> p + part == part;
    assert p != "";
    assert whole == ([c] + whole)[1..] == p[1..] + part + q;
  }

  /** The cuts are at every occurrence: no part still contains the separator. */
  lemma {:induction false} PartsAreFree(s: string, sep: string, i: nat)
    requires sep != "" && i < |Split(s, sep)|
    ensures !Occurs(sep, Split(s, sep)[i])
    decreases |s|
  {
    var part := Split(s, sep)[i];
    if |s| < |sep| || (sep <= s && i == 0) {
      assert |part| < |sep|;
    } else if sep <= s {
      PartsAreFree(s[|sep|..], sep, i - 1);
    } else {
      PartsAreFree(s[1..], sep, i);
      if i == 0 && Occurs(sep, part) {
        FirstPartIsPrefix(s[1..], sep);
        OccursInTail(s[0], sep, part[1..]);
      }
    }
  }

  lemma BlankIsInherited(part: string, whole: string)
    requires Occurs(part, whole) && IsBlank(whole)
    ensures IsBlank(part)
  {
    var p, s :| whole == p + part + s;
    forall i | 0 <= i < |part| ensures IsSpace(part[i]) {
      assert whole[|p| + i] == part[i];
    }
  }

  lemma Around(p: string, a: string, core: string, b: string, q: string)
    ensures p + (a + core + b) + q == (p + a) + core + (b + q)
    ensures p == [] ==> p + a == a && p + (a + core + b) + q == a + core + b + q
    ensures q == [] ==> b + q == b && p + (a + core + b) + q == p + (a + core + b)
  {
  }

  lemma CutFront(s: string, before: string, core: string, after: string)
    requires s != "" && IsSpace(s[0]) && s[1..] == before + core + after && IsBlank(before)
    ensures s == ([s[0]] + before) + core + after && IsBlank([s[0]] + before)
  {
    Around([s[0]], before, core, after, []);
    assert s == [s[0]] + s[1..];
  }

  lemma CutBack(s: string, before: string, core: string, after: string)
    requires s != "" && IsSpace(s[|s| - 1]) && s[..|s| - 1] == before + core + after && IsBlank(after)
    ensures s == before + core + (after + [s[|s| - 1]]) && IsBlank(after + [s[|s| - 1]])
  {
    Around([], before, core, after, [s[|s| - 1]]);
    assert s == s[..|s| - 1] + [s[|s| - 1]];
  }

  /** strip() takes blanks off both ends and nothing else. */
  lemma {:induction false} StripCuts(s: string) returns (before: string, after: string)
    ensures s == before + Strip(s) + after && IsBlank(before) && IsBlank(after)
    ensures Strip(s) != "" ==> !IsSpace(Strip(s)[0]) && !IsSpace(Strip(s)[|Strip(s)| - 1])
    decreases |s|
  {
    before, after := "", "";
    if s == "" {
    } else if IsSpace(s[0]) {
      before, after := StripCuts(s[1..]);
      CutFront(s, before, Strip(s[1..]), after);
      before := [s[0]] + before;
    } else if IsSpace(s[|s| - 1]) {
      before, after := StripCuts(s[..|s| - 1]);
      CutBack(s, before, Strip(s[..|s| - 1]), after);
      after := after + [s[|s| - 1]];
    }
  }

  lemma StripKeeps(s: string)
    requires s != "" && !IsSpace(s[0]) && !IsSpace(s[|s| - 1])
    ensures Strip(s) == s && !IsBlank(s)
  {
  }

  lemma StripShrinks(s: string)
    ensures |Strip(s)| <= |s|
    ensures Occurs(Strip(s), s)
    ensures IsBlank(s) <==> Strip(s) == ""
  {
    var before, after := StripCuts(s);
    OccursWithin(Strip(s), s, before, after);
    if Strip(s) != "" {
      assert s[|before|] == Strip(s)[0];
    }
  }

  lemma {:induction false} PartOccurs(sep: string, parts: seq<string>, i: nat)
    requires i < |parts|
    ensures Occurs(parts[i], Join(sep, parts))
  {
    var whole := Join(sep, parts);
    if |parts| == 1 {
      OccursWithin(parts[0], whole, "", "");
    } else if i == 0 {
      assert whole == "" + parts[0] + (sep + Join(sep, parts[1..]));
    } else {
      PartOccurs(sep, parts[1..], i - 1);
      OccursWithin(Join(sep, parts[1..]), whole, parts[0] + sep, "");
      OccursTransitive(parts[i], Join(sep, parts[1..]), whole);
    }
  }

  lemma {:induction false} JoinSnoc(sep: string, parts: seq<string>, last: string)
    ensures Join(sep, parts + [last]) == if parts == [] then last else Join(sep, parts) + sep + last
  {
    if |parts| > 1 {
      JoinSnoc(sep, parts[1..], last);
      assert (parts + [last])[1..] == parts[1..] + [last];
    } else if |parts| == 1 {
      assert (parts + [last])[1..] == [last];
    }
  }

  // ---------------------------------------------------------------- splitting a text put together

  lemma PrefixOccurs(part: string, s: string)
    requires part <= s
    ensures Occurs(part, s)
  {
    assert s == "" + part + s[|part|..];
  }

  lemma MembersOccur(part: string, s: string)
    requires Occurs(part, s)
    ensures forall c | c in part :: c in s
  {
    var before, after :| s == before + part + after;
    assert forall i | 0 <= i < |part| :: s[|before| + i] == part[i];
  }

  lemma {:induction false} SplitAbsent(s: string, sep: string)
    requires sep != "" && !Occurs(sep, s)
    ensures Split(s, sep) == [s]
    decreases |s|
  {
    if |s| >= |sep| {
      if sep <= s {
        PrefixOccurs(sep, s);
        assert false;
      }
      if Occurs(sep, s[1..]) {
        OccursWithin(s[1..], s, s[..1], "");
        OccursTransitive(sep, s[1..], s);
      }
      SplitAbsent(s[1..], sep);
      assert s == [s[0]] + s[1..];
    }
  }

  lemma AbsentCharacter(sep: string, s: string, c: char)
    requires c in sep && c !in s
    ensures !Occurs(sep, s)
  {
    if Occurs(sep, s) {
      MembersOccur(sep, s);
      assert false;
    }
  }

  lemma SplitWithout(s: string, sep: string, c: char)
    requires c in sep && c !in s
    ensures Split(s, sep) == [s]
  {
    AbsentCharacter(sep, s, c);
    SplitAbsent(s, sep);
  }

  /** c goes in front of the first part. */
  function PutFirst(c: char, parts: seq<string>): seq<string>
    requires parts != []
  {
    [[c] + parts[0]] + parts[1..]
  }

  lemma SplitStep(s: string, sep: string)
    requires sep != "" && s != "" && !(sep <= s)
    ensures Split(s, sep) == PutFirst(s[0], Split(s[1..], sep))
  {
    if |s| < |sep| {
      assert [s[0]] + s[1..] == s;
    }
  }

  lemma SplitCut(sep: string, later: string)
    requires sep != ""
    ensures Split(sep + later, sep) == [""] + Split(later, sep)
  {
    assert (sep + later)[|sep|..] == later;
  }

  lemma PutFirstAppend(c: char, a: seq<string>, b: seq<string>)
    requires a != []
    ensures PutFirst(c, a + b) == PutFirst(c, a) + b
  {
  }

  lemma PrefixAgrees(part: string, s: string)
    requires part <= s
    ensures forall i | 0 <= i < |part| :: s[i] == part[i]
  {
  }

  lemma CutPrefix(x: string, sep: string, more: string)
    requires sep <= x
    ensures x == sep + x[|sep|..] && x + more == sep + (x[|sep|..] + more)
  {
  }

  lemma {:induction false} SplitBefore(x: string, sep: string, y: string)
    requires sep != "" && sep[0] !in sep[1..]
    ensures Split(x + (sep + y), sep) == Split(x, sep) + Split(y, sep)
    decreases |x|
  {
    var more := sep + y;
    if x == "" {
      assert x + more == more;
      SplitCut(sep, y);
    } else if sep <= x {
      var x' := x[|sep|..];
      CutPrefix(x, sep, more);
      SplitBefore(x', sep, y);
      SplitCut(sep, x');
      SplitCut(sep, x' + more);
      assert [""] + (Split(x', sep) + Split(y, sep)) == [""] + Split(x', sep) + Split(y, sep);
    } else {
      NoPrefixOver(x, sep, y);
      SplitStep(x, sep);
      SplitStep(x + more, sep);
      assert (x + more)[1..] == x[1..] + more;
      SplitBefore(x[1..], sep, y);
      PutFirstAppend(x[0], Split(x[1..], sep), Split(y, sep));
    }
  }

  /** A separator that cannot overlap itself splits a text at each place where it is put in. */
  lemma SplitAtSeparator(x: string, sep: string, y: string)
    requires sep != "" && sep[0] !in sep[1..]
    ensures Split(x + sep + y, sep) == Split(x, sep) + Split(y, sep)
  {
    SplitBefore(x, sep, y);
    assert x + sep + y == x + (sep + y);
  }

  lemma NoPrefixOver(x: string, sep: string, y: string)
    requires sep != "" && x != "" && sep[0] !in sep[1..] && !(sep <= x)
    ensures !(sep <= x + (sep + y))
  {
    assert |x| < |sep| ==> (x + (sep + y))[|x|] == sep[0] && sep[1..][|x| - 1] == sep[|x|];
    if sep <= x + (sep + y) {
      PrefixAgrees(sep, x + (sep + y));
    }
  }

  lemma SplitAt(x: string, c: char, y: string)
    requires c !in x
    ensures Split(x + [c] + y, [c]) == [x] + Split(y, [c])
  {
    SplitAtSeparator(x, [c], y);
    SplitWithout(x, [c], c);
  }

  /** `more` goes behind the last part. */
  function GrowLast(parts: seq<string>, more: string, later: seq<string>): seq<string>
    requires parts != []
  {
    parts[..|parts| - 1] + [parts[|parts| - 1] + more] + later
  }

  lemma GrowLastStep(c: char, parts: seq<string>, more: string, later: seq<string>)
    requires parts != []
    ensures GrowLast(PutFirst(c, parts), more, later) == PutFirst(c, GrowLast(parts, more, later))
  {
    if |parts| == 1 {
      assert [c] + (parts[0] + more) == ([c] + parts[0]) + more;
    }
  }

  lemma GrowLastCut(parts: seq<string>, more: string, later: seq<string>)
    requires parts != []
    ensures GrowLast([""] + parts, more, later) == [""] + GrowLast(parts, more, later)
  {
  }

  /** No separator reaches over the character c behind x. */
  predicate Apart(x: string, c: char, sep: string)
    requires sep != ""
  {
    c !in sep || (sep == [sep[0], c] && (x == "" || x[|x| - 1] != sep[0]) && c != sep[0])
  }

  lemma NoPrefixAround(x: string, c: char, y: string, sep: string)
    requires sep != "" && Apart(x, c, sep) && !(sep <= x)
    ensures !(sep <= x + [c] + y)
  {
    assert (x + [c] + y)[|x|] == c;
    assert x != "" ==> (x + [c] + y)[0] == x[0];
    if sep <= x + [c] + y {
      PrefixAgrees(sep, x + [c] + y);
    }
  }

  /** Then the last part of x and the first of y grow together around it. */
  lemma {:induction false} SplitAround(x: string, c: char, y: string, sep: string)
    requires sep != "" && Apart(x, c, sep)
    ensures Split(x + [c] + y, sep) == GrowLast(Split(x, sep), [c] + Split(y, sep)[0], Split(y, sep)[1..])
    decreases |x|
  {
    var s, b := x + [c] + y, Split(y, sep);
    if sep <= x {
      assert s == sep + (x[|sep|..] + [c] + y) && x == sep + x[|sep|..];
      SplitAround(x[|sep|..], c, y, sep);
      SplitCut(sep, x[|sep|..]);
      SplitCut(sep, x[|sep|..] + [c] + y);
      GrowLastCut(Split(x[|sep|..], sep), [c] + b[0], b[1..]);
    } else {
      NoPrefixAround(x, c, y, sep);
      SplitStep(s, sep);
      if x == "" {
        assert s[1..] == y && Split(x, sep) == [""];
        assert "" + ([c] + b[0]) == [c] + b[0];
      } else {
        SplitStep(x, sep);
        assert s[1..] == x[1..] + [c] + y;
        SplitAround(x[1..], c, y, sep);
        GrowLastStep(x[0], Split(x[1..], sep), [c] + b[0], b[1..]);
      }
    }
  }

  /** A last character that ends no separator stays with the last part. */
  lemma {:induction false} SplitPush(x: string, c: char, sep: string)
    requires sep != "" && c != sep[|sep| - 1]
    ensures Split(x + [c], sep) == GrowLast(Split(x, sep), [c], [])
    decreases |x|
  {
    var s := x + [c];
    if sep <= x {
      assert s == sep + (x[|sep|..] + [c]) && x == sep + x[|sep|..];
      SplitPush(x[|sep|..], c, sep);
      SplitCut(sep, x[|sep|..]);
      SplitCut(sep, x[|sep|..] + [c]);
      GrowLastCut(Split(x[|sep|..], sep), [c], []);
    } else {
      NoPrefixPush(x, c, sep);
      SplitStep(s, sep);
      if x == "" {
        assert s[1..] == "" && Split("", sep) == [""];
        assert [c] + "" == "" + [c];
      } else {
        SplitStep(x, sep);
        assert s[1..] == x[1..] + [c];
        SplitPush(x[1..], c, sep);
        GrowLastStep(x[0], Split(x[1..], sep), [c], []);
      }
    }
  }

  lemma NoPrefixPush(x: string, c: char, sep: string)
    requires sep != "" && c != sep[|sep| - 1] && !(sep <= x)
    ensures !(sep <= x + [c])
  {
    assert (x + [c])[|x|] == c;
    if sep <= x + [c] {
      PrefixAgrees(sep, x + [c]);
    }
  }
}
