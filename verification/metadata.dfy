/**
 * The page-metadata pre-parser of metadata.go: every line before a
 * Setext-style title is a `key [:=] value` metadata line whose value is
 * slugified into the page's topic or keyword set; the body is everything
 * from the title line on. A file is an in-memory byte string here.
 */
module Metadata {
  import opened Wrappers
  import opened Text
  import opened Order

  /** The parser's view of a page. `title` is never assigned by the parser;
      `body` is the unparsed page text (the `PageUnparsed` field, which
      `readRestOfPage` writes under the name `Page`). */
  datatype Page = Page(title: string, topics: set<string>, keywords: set<string>, body: string)

  const EmptyPage := Page("", {}, {}, "")

  // ---------------------------------------------------------------------
  // Title detection

  /** `lineIsTitle`: after trimming surrounding whitespace, every byte is
      `=`. An empty or blank line therefore qualifies too. */
  predicate LineIsTitle(line: string) {
    var t := TrimSpace(line);
    forall i :: 0 <= i < |t| ==> t[i] == '='
  }

  /** The shape of an underline, stated without trimming: whitespace, a run
      of `=` (possibly empty), whitespace. */
  ghost predicate UnderlineShape(line: string) {
    exists a, e, c :: line == a + e + c && AllIn(a, AsciiSpace) && AllIn(e, {'='}) && AllIn(c, AsciiSpace)
  }

  lemma LineIsTitleIff(line: string)
    ensures LineIsTitle(line) <==> UnderlineShape(line)
  {
    if LineIsTitle(line) {
      TitleHasShape(line);
    }
    if UnderlineShape(line) {
      var a, e, c :| line == a + e + c && AllIn(a, AsciiSpace) && AllIn(e, {'='}) && AllIn(c, AsciiSpace);
      ShapeIsTitle(a, e, c);
    }
  }

  lemma TitleHasShape(line: string)
    requires LineIsTitle(line)
    ensures UnderlineShape(line)
  {
    var t := TrimSpace(line);
    TrimFacts(line, AsciiSpace);
    var x :| 0 <= x <= |line| - |t| && t == line[x..x + |t|]
             && AllIn(line[..x], AsciiSpace) && AllIn(line[x + |t|..], AsciiSpace);
    SliceShape(line, x, t);
  }

  /** A run of `=` between two stretches of whitespace is an underline shape. */
  lemma SliceShape(line: string, x: int, t: string)
    requires 0 <= x <= |line| - |t| && t == line[x..x + |t|]
    requires AllIn(line[..x], AsciiSpace) && AllIn(line[x + |t|..], AsciiSpace)
    requires forall i :: 0 <= i < |t| ==> t[i] == '='
    ensures UnderlineShape(line)
  {
    var a, c := line[..x], line[x + |t|..];
    assert line == a + t + c by {
      assert line == line[..x] + line[x..x + |t|] + line[x + |t|..];
    }
    assert AllIn(t, {'='}) by {
      forall i | 0 <= i < |t| ensures t[i] in {'='} {
        assert t[i] == '=';
      }
    }
  }

  lemma ShapeIsTitle(a: string, e: string, c: string)
    requires AllIn(a, AsciiSpace) && AllIn(e, {'='}) && AllIn(c, AsciiSpace)
    ensures LineIsTitle(a + e + c)
  {
    var line := a + e + c;
    var t := TrimSpace(line);
    TrimFacts(line, AsciiSpace);
    if |t| > 0 {
      var x :| 0 <= x <= |line| - |t| && t == line[x..x + |t|]
               && AllIn(line[..x], AsciiSpace) && AllIn(line[x + |t|..], AsciiSpace);
      InsideRun(a, e, c, x, t);
    }
  }

  /** A slice that neither starts nor ends with whitespace lies inside the
      run of `=`. */
  lemma InsideRun(a: string, e: string, c: string, x: int, t: string)
    requires AllIn(a, AsciiSpace) && AllIn(e, {'='}) && AllIn(c, AsciiSpace)
    requires 0 <= x <= |a + e + c| - |t| && t == (a + e + c)[x..x + |t|]
    requires |t| > 0 && t[0] !in AsciiSpace && t[|t| - 1] !in AsciiSpace
    ensures forall i :: 0 <= i < |t| ==> t[i] == '='
  {
    var line := a + e + c;
    assert line[x] == t[0];
    assert x >= |a|;
    var y := x + |t| - 1;
    assert line[y] == t[|t| - 1];
    assert y < |a| + |e|;
    forall i | 0 <= i < |t| ensures t[i] == '=' {
      assert t[i] == line[x + i] == e[x + i - |a|];
    }
  }

  // ---------------------------------------------------------------------
  // Metadata lines

  /** The keys routed to the topic set and to the keyword set, in the order
      `processMetadata` tries them. */
  const TopicKeys: seq<string> := ["tag", "topic", "category"]
  const KeywordKeys: seq<string> := ["keyword", "meta"]

  /** `checkMatch` acts only when the raw line is strictly longer than the key
      and starts with it, byte for byte. */
  predicate KeyMatches(line: string, key: string) {
    |line| > |key| && line[..|key|] == key
  }

  /** `checkMatch` reads the first byte of the trimmed value, which fails when
      nothing but whitespace follows the key. */
  predicate Panics(line: string, key: string) {
    KeyMatches(line, key) && TrimSpace(line[|key|..]) == []
  }

  /** No key `processMetadata` tries makes `checkMatch` fail on `line`. */
  predicate LineSafe(line: string) {
    && !Panics(line, "tag") && !Panics(line, "topic") && !Panics(line, "category")
    && !Panics(line, "keyword") && !Panics(line, "meta")
  }

  /** The bytes `bytes.Trim(value, " \t\n=:")` strips. */
  const ValueCut: set<char> := {' ', '\t', '\n', '=', ':'}

  /** True when `s` holds two adjacent dashes. */
  predicate HasDoubleDash(s: string) {
    exists i :: 0 <= i < |s| - 1 && s[i] == '-' && s[i + 1] == '-'
  }

  /** The "suppress any double dashes" loop of `checkMatch`: it walks left to
      right, and on a `--` at position i removes the byte at i and moves on to
      i + 1, so the surviving dash is never paired again. */
  function CollapseDashes(s: string): (r: string)
    ensures |r| <= |s|
    ensures |s| > 0 ==> |r| > 0 && r[0] == s[0]
    ensures forall c :: c in r ==> c in s
  {
    if |s| < 2 then s
    else if s[0] == '-' && s[1] == '-' then "-" + CollapseDashes(s[2..])
    else [s[0]] + CollapseDashes(s[1..])
  }

  /** Two adjacent dashes either open the string or lie in its tail. */
  lemma DoubleDashSplit(s: string)
    requires |s| >= 2
    ensures HasDoubleDash(s) <==> (s[0] == '-' && s[1] == '-') || HasDoubleDash(s[1..])
  {
    if HasDoubleDash(s) && !(s[0] == '-' && s[1] == '-') {
      var i :| 0 <= i < |s| - 1 && s[i] == '-' && s[i + 1] == '-';
      assert s[1..][i - 1] == '-' && s[1..][i] == '-';
    }
    if HasDoubleDash(s[1..]) {
      var i :| 0 <= i < |s| - 2 && s[1..][i] == '-' && s[1..][i + 1] == '-';
      assert s[i + 1] == '-' && s[i + 2] == '-';
    }
  }

  /** The loop changes its input exactly when the input holds a `--`, and
      then it gets shorter. */
  lemma {:induction false} CollapseDashesFixed(s: string)
    ensures CollapseDashes(s) == s <==> !HasDoubleDash(s)
    ensures HasDoubleDash(s) ==> |CollapseDashes(s)| < |s|
  {
    if |s| >= 2 {
      DoubleDashSplit(s);
      if !(s[0] == '-' && s[1] == '-') {
        CollapseDashesFixed(s[1..]);
        assert [s[0]] + s[1..] == s;
      }
    }
  }

  /** True when `s` holds three adjacent dashes. */
  predicate HasTripleDash(s: string) {
    exists i :: 0 <= i < |s| - 2 && s[i] == '-' && s[i + 1] == '-' && s[i + 2] == '-'
  }

  lemma TripleDashTail(s: string)
    requires |s| >= 1
    ensures HasTripleDash(s[1..]) ==> HasTripleDash(s)
  {
    if HasTripleDash(s[1..]) {
      var i :| 0 <= i < |s| - 3 && s[1..][i] == '-' && s[1..][i + 1] == '-' && s[1..][i + 2] == '-';
      assert s[i + 1] == '-' && s[i + 2] == '-' && s[i + 3] == '-';
    }
  }

  /** Runs of one or two dashes come out as a single dash: without three
      dashes in a row the loop leaves no `--` behind. */
  lemma {:induction false} CollapseDashesShortRuns(s: string)
    requires !HasTripleDash(s)
    ensures !HasDoubleDash(CollapseDashes(s))
  {
    if |s| >= 2 {
      if s[0] == '-' && s[1] == '-' {
        var t := s[2..];
        assert s[2..] == s[1..][1..];
        TripleDashTail(s);
        TripleDashTail(s[1..]);
        CollapseDashesShortRuns(t);
        var d := CollapseDashes(t);
        if |t| > 0 {
          assert t[0] == s[2];
          assert s[2] != '-';
          DoubleDashSplit("-" + d);
          assert ("-" + d)[1..] == d;
        }
      } else {
        TripleDashTail(s);
        CollapseDashesShortRuns(s[1..]);
        var d := CollapseDashes(s[1..]);
        DoubleDashSplit([s[0]] + d);
        assert ([s[0]] + d)[1..] == d;
      }
    }
  }

  /** What the loop was meant to do: every run of dashes becomes one dash. */
  function SqueezeDashes(s: string): (r: string)
    ensures |r| <= |s|
    ensures |s| > 0 ==> |r| > 0 && r[0] == s[0]
    ensures forall c :: c in r ==> c in s
    decreases |s|
  {
    if |s| < 2 then s
    else if s[0] == '-' && s[1] == '-' then SqueezeDashes(s[1..])
    else [s[0]] + SqueezeDashes(s[1..])
  }

  /** The corrected loop leaves no `--`, and it agrees with the loop as
      written wherever that one already does. */
  lemma {:induction false} SqueezeDashesFacts(s: string)
    ensures !HasDoubleDash(SqueezeDashes(s))
    ensures SqueezeDashes(s) == s <==> !HasDoubleDash(s)
    ensures !HasTripleDash(s) ==> SqueezeDashes(s) == CollapseDashes(s)
    decreases |s|, 1
  {
    if |s| >= 2 {
      DoubleDashSplit(s);
      TripleDashTail(s);
      SqueezeDashesFacts(s[1..]);
      var d := SqueezeDashes(s[1..]);
      if s[0] == '-' && s[1] == '-' {
        assert |d| < |s|;
        if !HasTripleDash(s) {
          SqueezeRunOfTwo(s);
        }
      } else {
        DoubleDashSplit([s[0]] + d);
        assert ([s[0]] + d)[1..] == d;
        assert [s[0]] + s[1..] == s;
      }
    }
  }

  lemma SqueezeRunOfTwo(s: string)
    requires |s| >= 2 && s[0] == '-' && s[1] == '-' && !HasTripleDash(s)
    ensures SqueezeDashes(s) == CollapseDashes(s)
    decreases |s|, 0
  {
    var t := s[2..];
    assert s[1..][1..] == t;
    TripleDashTail(s);
    TripleDashTail(s[1..]);
    SqueezeDashesFacts(t);
    if |t| >= 1 {
      assert s[2] != '-';
      assert SqueezeDashes(s[1..]) == "-" + SqueezeDashes(t);
    }
  }

  /** A string of `n` dashes. */
  function DashRun(n: nat): (r: string)
    ensures |r| == n && forall i :: 0 <= i < n ==> r[i] == '-'
  {
    seq(n, i => '-')
  }

  /** The written loop works on the two sides of a byte other than a dash
      independently. */
  lemma {:induction false} CollapseSplit(p: string, q: string)
    requires |p| > 0 && p[|p| - 1] != '-'
    ensures CollapseDashes(p + q) == CollapseDashes(p) + CollapseDashes(q)
    decreases |p|
  {
    var s := p + q;
    if |p| == 1 {
      if |q| > 0 {
        assert s[1..] == q;
      }
    } else {
      assert s[0] == p[0] && s[1] == p[1];
      if p[0] == '-' && p[1] == '-' {
        assert s[2..] == p[2..] + q;
        CollapseSplit(p[2..], q);
      } else {
        assert s[1..] == p[1..] + q;
        CollapseSplit(p[1..], q);
      }
    }
  }

  /** The written loop turns a run of `n` dashes in front of another byte into
      `(n + 1) / 2` dashes: one for one or two, but two for three or four. */
  lemma {:induction false} CollapseRun(m: string, after: string)
    requires forall i :: 0 <= i < |m| ==> m[i] == '-'
    requires |after| > 0 && after[0] != '-'
    ensures CollapseDashes(m + after) == DashRun((|m| + 1) / 2) + CollapseDashes(after)
    decreases |m|
  {
    var s := m + after;
    if |m| == 0 {
      assert s == after;
    } else if |m| == 1 {
      assert s == "-" + after && s[1] == after[0];
    } else {
      assert s[0] == '-' && s[1] == '-' && s[2..] == m[2..] + after;
      CollapseRun(m[2..], after);
      assert DashRun((|m| + 1) / 2) == "-" + DashRun((|m| - 2 + 1) / 2);
    }
  }

  /** The intended loop also works on the two sides of a byte other than a
      dash independently. */
  lemma {:induction false} SqueezeSplit(p: string, q: string)
    requires |p| > 0 && p[|p| - 1] != '-'
    ensures SqueezeDashes(p + q) == SqueezeDashes(p) + SqueezeDashes(q)
    decreases |p|
  {
    var s := p + q;
    if |p| == 1 {
      if |q| > 0 {
        assert s[1..] == q;
      }
    } else {
      assert s[0] == p[0] && s[1] == p[1] && s[1..] == p[1..] + q;
      SqueezeSplit(p[1..], q);
    }
  }

  /** The intended loop turns any run of dashes in front of another byte into
      a single dash. */
  lemma {:induction false} SqueezeRun(m: string, after: string)
    requires forall i :: 0 <= i < |m| ==> m[i] == '-'
    requires |after| > 0 && after[0] != '-'
    ensures SqueezeDashes(m + after) == (if m == [] then "" else "-") + SqueezeDashes(after)
    decreases |m|
  {
    var s := m + after;
    if |m| == 0 {
      assert s == after;
    } else if |m| == 1 {
      assert s == "-" + after && s[1] == after[0];
    } else {
      assert s[0] == '-' && s[1] == '-' && s[1..] == m[1..] + after;
      SqueezeRun(m[1..], after);
    }
  }

  /** A trimmed, non-empty value with its `:`/`=` separators cut off when it
      starts with one (`bytes.Trim(value, " \t\n=:")`). */
  function CutValue(v: string): (r: string)
    requires v != []
    ensures |r| <= |v|
  {
    if v[0] == ':' || v[0] == '=' then Trim(v, ValueCut) else v
  }

  /** The written loop only ever removes dashes. */
  lemma {:induction false} CollapseKeepsNonDashes(s: string)
    ensures Without(CollapseDashes(s), {'-'}) == Without(s, {'-'})
  {
    if |s| >= 2 {
      if s[0] == '-' && s[1] == '-' {
        CollapseKeepsNonDashes(s[2..]);
        assert ("-" + CollapseDashes(s[2..]))[1..] == CollapseDashes(s[2..]);
        assert s[1..][1..] == s[2..];
      } else {
        CollapseKeepsNonDashes(s[1..]);
        assert ([s[0]] + CollapseDashes(s[1..]))[1..] == CollapseDashes(s[1..]);
      }
    }
  }

  /** The intended loop only ever removes dashes. */
  lemma {:induction false} SqueezeKeepsNonDashes(s: string)
    ensures Without(SqueezeDashes(s), {'-'}) == Without(s, {'-'})
    decreases |s|
  {
    if |s| >= 2 {
      SqueezeKeepsNonDashes(s[1..]);
      if !(s[0] == '-' && s[1] == '-') {
        assert ([s[0]] + SqueezeDashes(s[1..]))[1..] == SqueezeDashes(s[1..]);
      }
    }
  }

  /** The slug `checkMatch` stores for a trimmed, non-empty value: cut the
      separators, turn spaces into dashes, run the written dash loop. Apart
      from dashes, it holds exactly the bytes of the cut value other than
      spaces, in order. */
  function Slug(v: string): (r: string)
    requires v != []
    ensures ' ' !in r
    ensures |r| <= |v|
    ensures Without(r, {'-'}) == Without(CutValue(v), {' ', '-'})
    ensures !HasDoubleDash(ReplaceByte(CutValue(v), ' ', '-')) ==> r == ReplaceByte(CutValue(v), ' ', '-')
  {
    var v1 := CutValue(v);
    var v2 := ReplaceByte(v1, ' ', '-');
    WithoutReplace(v1, ' ', '-', {'-'});
    assert {'-'} + {' '} == {' ', '-'};
    CollapseKeepsNonDashes(v2);
    CollapseDashesFixed(v2);
    CollapseDashes(v2)
  }

  /** `checkMatch(line, key, tracker)` as written: the value it adds to the
      tracked set, if any. Its dash loop can leave a `--` behind (see
      `CheckMatchLeavesDoubleDash`). */
  function CheckMatch(line: string, key: string): (r: Option<string>)
    requires !Panics(line, key)
    ensures r.Some? <==> KeyMatches(line, key)
    ensures r.Some? ==> ' ' !in r.value && |r.value| <= |line| - |key|
    ensures r.Some? ==> var v := TrimSpace(line[|key|..]);
              v != [] && Without(r.value, {'-'}) == Without(CutValue(v), {' ', '-'})
    ensures r.Some? ==> var v := TrimSpace(line[|key|..]);
              v != [] && (!HasDoubleDash(ReplaceByte(CutValue(v), ' ', '-')) ==> r.value == ReplaceByte(CutValue(v), ' ', '-'))
  {
    if KeyMatches(line, key) then Some(Slug(TrimSpace(line[|key|..]))) else None
  }

  /** The slug `checkMatch` was written to produce: as `Slug`, but with every
      run of dashes squeezed to one. */
  function IntendedSlug(v: string): (r: string)
    requires v != []
    ensures ' ' !in r && !HasDoubleDash(r)
    ensures |r| <= |v|
    ensures Without(r, {'-'}) == Without(CutValue(v), {' ', '-'})
    ensures !HasDoubleDash(ReplaceByte(CutValue(v), ' ', '-')) ==> r == ReplaceByte(CutValue(v), ' ', '-')
  {
    var v1 := CutValue(v);
    var v2 := ReplaceByte(v1, ' ', '-');
    SqueezeDashesFacts(v2);
    WithoutReplace(v1, ' ', '-', {'-'});
    assert {'-'} + {' '} == {' ', '-'};
    SqueezeKeepsNonDashes(v2);
    SqueezeDashes(v2)
  }

  /** `checkMatch(line, key, tracker)` with its dash loop as intended: a value
      on exactly the lines where the written one stores one, with the same
      bytes apart from dashes, never holding `--`. */
  function CheckMatchIntended(line: string, key: string): (r: Option<string>)
    requires !Panics(line, key)
    ensures r.Some? <==> KeyMatches(line, key)
    ensures r.Some? ==> ' ' !in r.value && !HasDoubleDash(r.value) && |r.value| <= |line| - |key|
    ensures r.Some? ==> var v := TrimSpace(line[|key|..]);
              v != [] && Without(r.value, {'-'}) == Without(CutValue(v), {' ', '-'})
    ensures r.Some? ==> var v := TrimSpace(line[|key|..]);
              v != [] && (!HasDoubleDash(ReplaceByte(CutValue(v), ' ', '-')) ==> r.value == ReplaceByte(CutValue(v), ' ', '-'))
  {
    if KeyMatches(line, key) then Some(IntendedSlug(TrimSpace(line[|key|..]))) else None
  }

  /** Where the dashes of a slug come from. Take two bytes of the cut value
      that are neither spaces nor dashes, with only spaces and dashes between
      them. The intended slug puts one dash between them iff there was at
      least one byte between them. The written slug puts half of that many
      dashes, rounded up. Each side is slugged on its own. */
  lemma SlugSeparators(v: string, a: string, x: char, m: string, y: char, b: string)
    requires v != [] && CutValue(v) == a + [x] + m + [y] + b
    requires x != ' ' && x != '-' && y != ' ' && y != '-'
    requires forall i :: 0 <= i < |m| ==> m[i] == ' ' || m[i] == '-'
    ensures var before, after := ReplaceByte(a + [x], ' ', '-'), ReplaceByte([y] + b, ' ', '-');
            && Slug(v) == CollapseDashes(before) + DashRun((|m| + 1) / 2) + CollapseDashes(after)
            && IntendedSlug(v) == SqueezeDashes(before) + (if m == [] then "" else "-") + SqueezeDashes(after)
  {
    var before, dashes, after := ReplaceByte(a + [x], ' ', '-'), ReplaceByte(m, ' ', '-'), ReplaceByte([y] + b, ' ', '-');
    DashedAround(a, x, m, y, b);
    SlugsOf(v, CutValue(v), before + dashes + after);
    CollapseAround(before, dashes, after);
    SqueezeAround(before, dashes, after);
  }

  /** Turning spaces into dashes around a run of spaces and dashes. */
  lemma DashedAround(a: string, x: char, m: string, y: char, b: string)
    requires x != ' ' && x != '-' && y != ' ' && y != '-'
    requires forall i :: 0 <= i < |m| ==> m[i] == ' ' || m[i] == '-'
    ensures var before, dashes, after := ReplaceByte(a + [x], ' ', '-'), ReplaceByte(m, ' ', '-'), ReplaceByte([y] + b, ' ', '-');
            && ReplaceByte(a + [x] + m + [y] + b, ' ', '-') == before + dashes + after
            && |before| > 0 && before[|before| - 1] == x
            && (forall i :: 0 <= i < |dashes| ==> dashes[i] == '-')
            && |after| > 0 && after[0] == y
  {
    var left, right := a + [x], [y] + b;
    assert a + [x] + m + [y] + b == (left + m) + right;
    ReplaceByteAppend(left + m, right, ' ', '-');
    ReplaceByteAppend(left, m, ' ', '-');
    assert left[|left| - 1] == x && right[0] == y;
  }

  /** The written loop around a run of dashes between two other bytes. */
  lemma CollapseAround(before: string, dashes: string, after: string)
    requires |before| > 0 && before[|before| - 1] != '-'
    requires forall i :: 0 <= i < |dashes| ==> dashes[i] == '-'
    requires |after| > 0 && after[0] != '-'
    ensures CollapseDashes(before + dashes + after)
            == CollapseDashes(before) + DashRun((|dashes| + 1) / 2) + CollapseDashes(after)
  {
    assert before + dashes + after == before + (dashes + after);
    CollapseSplit(before, dashes + after);
    CollapseRun(dashes, after);
  }

  /** The intended loop around a run of dashes between two other bytes. */
  lemma SqueezeAround(before: string, dashes: string, after: string)
    requires |before| > 0 && before[|before| - 1] != '-'
    requires forall i :: 0 <= i < |dashes| ==> dashes[i] == '-'
    requires |after| > 0 && after[0] != '-'
    ensures SqueezeDashes(before + dashes + after)
            == SqueezeDashes(before) + (if dashes == [] then "" else "-") + SqueezeDashes(after)
  {
    assert before + dashes + after == before + (dashes + after);
    SqueezeSplit(before, dashes + after);
    SqueezeRun(dashes, after);
  }

  /** The two slugs differ only on values with three dashes (or spaces) in a row. */
  lemma SlugAgreesOnShortRuns(v: string)
    requires v != []
    requires !HasTripleDash(ReplaceByte(CutValue(v), ' ', '-'))
    ensures Slug(v) == IntendedSlug(v)
  {
    SqueezeDashesFacts(ReplaceByte(CutValue(v), ' ', '-'));
  }

  /** The written and the intended `checkMatch` agree on every line whose
      value, spaces turned to dashes, has no three dashes in a row. */
  lemma CheckMatchAgrees(line: string, key: string)
    requires !Panics(line, key) && KeyMatches(line, key)
    requires var v := TrimSpace(line[|key|..]);
             v != [] && !HasTripleDash(ReplaceByte(CutValue(v), ' ', '-'))
    ensures CheckMatch(line, key) == CheckMatchIntended(line, key)
  {
    SlugAgreesOnShortRuns(TrimSpace(line[|key|..]));
  }

  /** A line that starts with the key and whose trimmed rest is `v`: both
      versions of `checkMatch` store the slug of `v`. */
  lemma CheckMatchOn(line: string, key: string, v: string)
    requires KeyMatches(line, key) && TrimSpace(line[|key|..]) == v && v != []
    ensures !Panics(line, key)
    ensures CheckMatch(line, key) == Some(Slug(v)) && CheckMatchIntended(line, key) == Some(IntendedSlug(v))
  {
  }

  /** Both slugs of `v`, once its cut and dashed forms are known. */
  lemma SlugsOf(v: string, cut: string, dashed: string)
    requires v != [] && CutValue(v) == cut && ReplaceByte(cut, ' ', '-') == dashed
    ensures Slug(v) == CollapseDashes(dashed) && IntendedSlug(v) == SqueezeDashes(dashed)
  {
  }

  // Accepted inputs of the metadata tests, which the code handles as the
  // tests expect.

  lemma CheckMatchEquals()
    ensures !Panics("topic = a", "topic") && CheckMatch("topic = a", "topic") == Some("a")
  {
    var line, v := "topic = a", "= a";
    assert line[5..] == " = a" && " = a"[1..] == v;
    assert TrimSpace(" = a") == v;
    CheckMatchOn(line, "topic", v);
    assert v[1..] == " a" && " a"[1..] == "a";
    assert CutValue(v) == "a";
    SlugsOf(v, "a", "a");
    assert CollapseDashes("a") == "a";
  }

  lemma CheckMatchDoubleSpace()
    ensures !Panics("topic=g  h", "topic") && CheckMatch("topic=g  h", "topic") == Some("g-h")
  {
    var line, v := "topic=g  h", "=g  h";
    assert line[5..] == v;
    assert TrimSpace(v) == v;
    CheckMatchOn(line, "topic", v);
    SlugDoubleSpace();
  }

  lemma SlugDoubleSpace()
    ensures Slug("=g  h") == "g-h"
  {
    CutDoubleSpace();
    assert ReplaceByte("g  h", ' ', '-') == "g--h";
    SlugsOf("=g  h", "g  h", "g--h");
    CollapseTwoDashes();
  }

  lemma CutDoubleSpace()
    ensures CutValue("=g  h") == "g  h"
  {
    var v := "=g  h";
    assert v == ['='] + "g  h";
    TrimDropsFirst('=', "g  h", ValueCut);
    TrimKeeps("g  h", ValueCut);
  }

  lemma CollapseTwoDashes()
    ensures CollapseDashes("g--h") == "g-h"
  {
    var h := "h";
    assert CollapseDashes(h) == h;
    CollapsePair(h);
    CollapseKeep('g', "--h");
  }

  lemma CheckMatchColon()
    ensures !Panics("topic :k", "topic") && CheckMatch("topic :k", "topic") == Some("k")
  {
    var line, v := "topic :k", ":k";
    assert line[5..] == " :k" && " :k"[1..] == v;
    assert TrimSpace(" :k") == v;
    CheckMatchOn(line, "topic", v);
    assert v[1..] == "k";
    assert CutValue(v) == "k";
    SlugsOf(v, "k", "k");
    assert CollapseDashes("k") == "k";
  }

  /** Three spaces between words: the code as written leaves a double dash
      behind, where its test expects `l-m-no`; the intended one gives that. */
  lemma CheckMatchLeavesDoubleDash()
    ensures !Panics("topic : l m   no", "topic")
    ensures CheckMatch("topic : l m   no", "topic") == Some("l-m--no")
    ensures CheckMatchIntended("topic : l m   no", "topic") == Some("l-m-no")
  {
    var line, v := "topic : l m   no", ": l m   no";
    assert line[5..] == " : l m   no";
    TrimThreeSpaces();
    CheckMatchOn(line, "topic", v);
    SlugThreeSpaces();
  }

  lemma TrimThreeSpaces()
    ensures TrimSpace(" : l m   no") == ": l m   no"
  {
    assert " : l m   no"[1..] == ": l m   no";
  }

  /** The value of that line, slugged as written and as intended. */
  lemma SlugThreeSpaces()
    ensures Slug(": l m   no") == "l-m--no"
    ensures IntendedSlug(": l m   no") == "l-m-no"
  {
    var v := ": l m   no";
    assert v[1..] == " l m   no" && v[1..][1..] == "l m   no";
    assert CutValue(v) == "l m   no";
    DashesForSpaces();
    SlugsOf(v, "l m   no", "l-m---no");
    CollapseThreeDashes();
    SqueezeThreeDashes();
  }

  lemma DashesForSpaces()
    ensures ReplaceByte("l m   no", ' ', '-') == "l-m---no"
  {
  }

  lemma CollapseThreeDashes()
    ensures CollapseDashes("l-m---no") == "l-m--no"
  {
    var no := "no";
    assert CollapseDashes(no) == no;
    CollapseKeep('-', no);
    CollapsePair("-no");
    CollapseKeep('m', "---no");
    CollapseKeep('-', "m---no");
    CollapseKeep('l', "-m---no");
  }

  /** A byte that does not open a `--` is kept and the loop moves on. */
  lemma CollapseKeep(c: char, s: string)
    requires |s| > 0 && !(c == '-' && s[0] == '-')
    ensures CollapseDashes([c] + s) == [c] + CollapseDashes(s)
  {
    assert ([c] + s)[1..] == s;
  }

  /** A `--` leaves one dash and the loop moves past both. */
  lemma CollapsePair(s: string)
    ensures CollapseDashes("--" + s) == "-" + CollapseDashes(s)
  {
    assert ("--" + s)[2..] == s;
  }

  lemma SqueezeThreeDashes()
    ensures SqueezeDashes("l-m---no") == "l-m-no"
  {
    var no := "no";
    assert SqueezeDashes(no) == no;
    SqueezeKeep('-', no);
    SqueezeDrop("-no");
    SqueezeDrop("--no");
    SqueezeKeep('m', "---no");
    SqueezeKeep('-', "m---no");
    SqueezeKeep('l', "-m---no");
  }

  /** A byte that does not open a `--` is kept. */
  lemma SqueezeKeep(c: char, s: string)
    requires |s| > 0 && !(c == '-' && s[0] == '-')
    ensures SqueezeDashes([c] + s) == [c] + SqueezeDashes(s)
  {
    assert ([c] + s)[1..] == s;
  }

  /** The first dash of a `--` is dropped. */
  lemma SqueezeDrop(s: string)
    requires |s| > 0 && s[0] == '-'
    ensures SqueezeDashes("-" + s) == SqueezeDashes(s)
  {
    assert ("-" + s)[1..] == s;
  }

  /** The values `line` contributes under the given keys. */
  function Found(line: string, keys: seq<string>): (r: set<string>)
    requires forall k :: k in keys ==> !Panics(line, k)
    ensures |r| <= |keys|
  {
    if |keys| == 0 then {}
    else OptionSet(CheckMatch(line, keys[0])) + Found(line, keys[1..])
  }

  /** A value is found exactly when one of the keys yields it. */
  lemma {:induction false} FoundIff(line: string, keys: seq<string>)
    requires forall k :: k in keys ==> !Panics(line, k)
    ensures forall v :: v in Found(line, keys) <==> exists k :: k in keys && CheckMatch(line, k) == Some(v)
  {
    if |keys| > 0 {
      FoundIff(line, keys[1..]);
      assert forall k :: k in keys <==> k == keys[0] || k in keys[1..];
    }
  }

  /** `processMetadata`: route `tag`/`topic`/`category` values to the topics
      and `keyword`/`meta` values to the keywords (see `ProcessMetadataRoutes`). */
  function ProcessMetadata(p: Page, line: string): (r: Page)
    requires LineSafe(line)
    ensures r.title == p.title && r.body == p.body
    ensures p.topics <= r.topics && p.keywords <= r.keywords
  {
    p.(topics := p.topics + Found(line, TopicKeys), keywords := p.keywords + Found(line, KeywordKeys))
  }

  /** Every topic the line adds comes from a topic key and every matching topic
      key adds its value; likewise for keywords. Nothing else changes. */
  lemma ProcessMetadataRoutes(p: Page, line: string)
    requires LineSafe(line)
    ensures var r := ProcessMetadata(p, line);
            && (forall t :: t in r.topics - p.topics ==>
                  exists k :: k in TopicKeys && CheckMatch(line, k) == Some(t))
            && (forall k :: k in TopicKeys && KeyMatches(line, k) ==> CheckMatch(line, k).value in r.topics)
    ensures var r := ProcessMetadata(p, line);
            && (forall t :: t in r.keywords - p.keywords ==>
                  exists k :: k in KeywordKeys && CheckMatch(line, k) == Some(t))
            && (forall k :: k in KeywordKeys && KeyMatches(line, k) ==> CheckMatch(line, k).value in r.keywords)
  {
    var r := ProcessMetadata(p, line);
    assert (forall t :: t in r.topics - p.topics ==>
              exists k :: k in TopicKeys && CheckMatch(line, k) == Some(t))
           && (forall k :: k in TopicKeys && KeyMatches(line, k) ==> CheckMatch(line, k).value in r.topics) by {
      FoundIff(line, TopicKeys);
    }
    assert (forall t :: t in r.keywords - p.keywords ==>
              exists k :: k in KeywordKeys && CheckMatch(line, k) == Some(t))
           && (forall k :: k in KeywordKeys && KeyMatches(line, k) ==> CheckMatch(line, k).value in r.keywords) by {
      FoundIff(line, KeywordKeys);
    }
  }

  /** Processing the same line twice is processing it once. */
  lemma ProcessMetadataIdempotent(p: Page, line: string)
    requires LineSafe(line)
    ensures ProcessMetadata(ProcessMetadata(p, line), line) == ProcessMetadata(p, line)
  {
  }

  /** Feed `lines` to `processMetadata` one after another. */
  function ProcessAll(p: Page, lines: seq<string>): (r: Page)
    requires forall i :: 0 <= i < |lines| ==> LineSafe(lines[i])
    ensures r.title == p.title && r.body == p.body
    ensures p.topics <= r.topics && p.keywords <= r.keywords
    decreases |lines|
  {
    if |lines| == 0 then p
    else ProcessAll(ProcessMetadata(p, lines[0]), lines[1..])
  }

  /** The values a run of lines yields under the given keys (see
      `GatheredIff`). */
  function Gathered(lines: seq<string>, keys: seq<string>): set<string>
    requires forall i :: 0 <= i < |lines| ==> LineSafe(lines[i])
    requires keys == TopicKeys || keys == KeywordKeys
    decreases |lines|
  {
    if |lines| == 0 then {}
    else
      LineSafeKeys(lines[0]);
      Found(lines[0], keys) + Gathered(lines[1..], keys)
  }

  lemma LineSafeKeys(line: string)
    requires LineSafe(line)
    ensures forall k :: k in TopicKeys ==> !Panics(line, k)
    ensures forall k :: k in KeywordKeys ==> !Panics(line, k)
  {
  }

  /** A value is gathered exactly when some line yields it. */
  lemma {:induction false} GatheredIff(lines: seq<string>, keys: seq<string>)
    requires forall i :: 0 <= i < |lines| ==> LineSafe(lines[i])
    requires keys == TopicKeys || keys == KeywordKeys
    ensures forall v :: v in Gathered(lines, keys) <==> exists i :: 0 <= i < |lines| && v in Found(lines[i], keys)
  {
    var f := FoundUnder(keys);
    GatheredIsUnion(lines, keys);
    UnionOfIff(lines, f);
  }

  /** The union of `f` over the elements of `xs`. */
  function UnionOf<T>(xs: seq<T>, f: T --> set<string>): set<string>
    requires forall i :: 0 <= i < |xs| ==> f.requires(xs[i])
  {
    if |xs| == 0 then {} else f(xs[0]) + UnionOf(xs[1..], f)
  }

  lemma {:induction false} UnionOfIff<T>(xs: seq<T>, f: T --> set<string>)
    requires forall i :: 0 <= i < |xs| ==> f.requires(xs[i])
    ensures forall v :: v in UnionOf(xs, f) <==> exists i :: 0 <= i < |xs| && v in f(xs[i])
  {
    if |xs| > 0 {
      UnionOfIff(xs[1..], f);
      assert forall i :: 0 <= i < |xs| - 1 ==> xs[1..][i] == xs[i + 1];
    }
  }

  /** `Found` under fixed keys, as a function of the line. */
  function FoundUnder(keys: seq<string>): (f: string --> set<string>)
    requires keys == TopicKeys || keys == KeywordKeys
    ensures forall line :: LineSafe(line) ==> f.requires(line)
    ensures forall line :: LineSafe(line) ==> f(line) == Found(line, keys)
  {
    (line: string) requires LineSafe(line) => LineSafeKeys(line); Found(line, keys)
  }

  lemma {:induction false} GatheredIsUnion(lines: seq<string>, keys: seq<string>)
    requires forall i :: 0 <= i < |lines| ==> LineSafe(lines[i])
    requires keys == TopicKeys || keys == KeywordKeys
    ensures Gathered(lines, keys) == UnionOf(lines, FoundUnder(keys))
    decreases |lines|
  {
    if |lines| > 0 {
      GatheredStep(lines, keys);
      GatheredIsUnion(lines[1..], keys);
    }
  }

  /** Processing a run of lines adds what the lines yield under the topic
      keys to the topics and what they yield under the keyword keys to the
      keywords, whatever the order of the lines. */
  lemma ProcessAllGathers(p: Page, lines: seq<string>)
    requires forall i :: 0 <= i < |lines| ==> LineSafe(lines[i])
    ensures ProcessAll(p, lines).topics == p.topics + Gathered(lines, TopicKeys)
    ensures ProcessAll(p, lines).keywords == p.keywords + Gathered(lines, KeywordKeys)
  {
    ProcessAllGathersTopics(p, lines);
    ProcessAllGathersKeywords(p, lines);
  }

  lemma {:induction false} ProcessAllGathersTopics(p: Page, lines: seq<string>)
    requires forall i :: 0 <= i < |lines| ==> LineSafe(lines[i])
    ensures ProcessAll(p, lines).topics == p.topics + Gathered(lines, TopicKeys)
    decreases |lines|
  {
    if |lines| > 0 {
      var q := ProcessMetadata(p, lines[0]);
      ProcessAllGathersTopics(q, lines[1..]);
      assert ProcessAll(p, lines) == ProcessAll(q, lines[1..]);
      GatheredStep(lines, TopicKeys);
    }
  }

  lemma {:induction false} ProcessAllGathersKeywords(p: Page, lines: seq<string>)
    requires forall i :: 0 <= i < |lines| ==> LineSafe(lines[i])
    ensures ProcessAll(p, lines).keywords == p.keywords + Gathered(lines, KeywordKeys)
    decreases |lines|
  {
    if |lines| > 0 {
      var q := ProcessMetadata(p, lines[0]);
      ProcessAllGathersKeywords(q, lines[1..]);
      assert ProcessAll(p, lines) == ProcessAll(q, lines[1..]);
      GatheredStep(lines, KeywordKeys);
    }
  }

  /** The first line's values, then the rest's. */
  lemma GatheredStep(lines: seq<string>, keys: seq<string>)
    requires |lines| > 0 && forall i :: 0 <= i < |lines| ==> LineSafe(lines[i])
    requires keys == TopicKeys || keys == KeywordKeys
    ensures LineSafe(lines[0]) && forall k :: k in keys ==> !Panics(lines[0], k)
    ensures Gathered(lines, keys) == Found(lines[0], keys) + Gathered(lines[1..], keys)
  {
    LineSafeKeys(lines[0]);
  }

  /** No topic and no keyword of the page holds a space. */
  predicate SpaceFree(p: Page) {
    (forall t :: t in p.topics ==> ' ' !in t) && (forall k :: k in p.keywords ==> ' ' !in k)
  }

  /** Processing metadata lines never brings a space into the page's sets. */
  lemma {:induction false} ProcessAllSpaceFree(p: Page, lines: seq<string>)
    requires forall i :: 0 <= i < |lines| ==> LineSafe(lines[i])
    requires SpaceFree(p)
    ensures SpaceFree(ProcessAll(p, lines))
    decreases |lines|
  {
    if |lines| > 0 {
      LineSafeKeys(lines[0]);
      FoundIff(lines[0], TopicKeys);
      FoundIff(lines[0], KeywordKeys);
      ProcessAllSpaceFree(ProcessMetadata(p, lines[0]), lines[1..]);
    }
  }

  // ---------------------------------------------------------------------
  // Reading a page

  /** `ReadBytes('\n')` on what is left of the input: the next line with its
      newline and the bytes after it, or nothing when no newline is left. */
  function NextLine(s: string): (r: Option<(string, string)>)
    ensures r.None? <==> '\n' !in s
    ensures r.Some? ==> var (line, rest) := r.value;
              line + rest == s && |line| > 0 && line[|line| - 1] == '\n'
  {
    if |s| == 0 then None
    else if s[0] == '\n' then Some(([s[0]], s[1..]))
    else match NextLine(s[1..])
      case None => None
      case Some((line, rest)) => Some(([s[0]] + line, rest))
  }

  /** Why `LoadPage` gave up, in the order its checks run. */
  datatype LoadError =
    | OnlyOneLine     // "I only read in... one line?"
    | JustATitle      // "Is this page just a title?"
    | NeverHitTitle   // "never hit a title"

  /** The message `LoadPage` returns for each failure. */
  function LoadErrorMessage(e: LoadError): (r: string)
    ensures |r| > 0
  {
    match e
    case OnlyOneLine => "I only read in... one line?"
    case JustATitle => "Is this page just a title?"
    case NeverHitTitle => "never hit a title"
  }

  /** Where the title, its underline and the rest of the page start. */
  datatype Layout = Layout(title: string, underline: string, rest: string)

  /** The page text `readRestOfPage` stores: title line, underline, the rest. */
  function BodyOf(l: Layout): string {
    l.title + l.underline + l.rest
  }

  /** What the reading loop of `LoadPage` does: the lines it hands to
      `processMetadata`, in order, and how it ends. */
  datatype Scan = Scan(meta: seq<string>, outcome: Result<Layout, LoadError>)

  /** The first two reads of `LoadPage`. */
  function ScanPage(s: string): Scan {
    var first := NextLine(s);
    if first.None? then Scan([], Err(OnlyOneLine))
    else
      var second := NextLine(first.value.1);
      if second.None? then Scan([], Err(JustATitle))
      else ScanFrom(first.value.0, second.value.0, second.value.1)
  }

  /** The loop of `LoadPage` with `upper` and `lower` the last two lines read:
      stop when `lower` is an underline, otherwise process `upper`, shift and
      read the next line. */
  function ScanFrom(upper: string, lower: string, rest: string): Scan
    decreases |rest|
  {
    if LineIsTitle(lower) then Scan([], Ok(Layout(upper, lower, rest)))
    else
      var next := NextLine(rest);
      if next.None? then Scan([upper], Err(NeverHitTitle))
      else
        var sc := ScanFrom(lower, next.value.0, next.value.1);
        Scan([upper] + sc.meta, sc.outcome)
  }

  /** Every line `LoadPage` hands to `processMetadata` is one it can process. */
  predicate MetadataSafe(s: string) {
    var m := ScanPage(s).meta;
    forall i :: 0 <= i < |m| ==> LineSafe(m[i])
  }

  /** `LoadPage` over the bytes of a file, starting from page `p`: on success
      the metadata lines have been processed and the body is the title line,
      the underline and the rest of the input. */
  function LoadPage(p: Page, s: string): (r: Result<Page, LoadError>)
    requires MetadataSafe(s)
    ensures '\n' !in s ==> r == Err(OnlyOneLine)
    ensures r.Ok? ==> r.value.title == p.title && p.topics <= r.value.topics
                      && p.keywords <= r.value.keywords
    ensures r.Ok? ==> HasSuffix(s, r.value.body)
  {
    var sc := ScanPage(s);
    match sc.outcome
    case Err(e) => Err(e)
    case Ok(l) =>
      ScanPageReassembles(s);
      SuffixOfConcat(s, Concat(sc.meta), BodyOf(l));
      Ok(ProcessAll(p, sc.meta).(body := BodyOf(l)))
  }

  lemma {:induction false} ScanFromReassembles(upper: string, lower: string, rest: string)
    ensures var sc := ScanFrom(upper, lower, rest);
            sc.outcome.Ok? ==> Concat(sc.meta) + BodyOf(sc.outcome.value) == upper + lower + rest
    decreases |rest|
  {
    var nl := NextLine(rest);
    if !LineIsTitle(lower) && nl.Some? {
      var (next, rest') := nl.value;
      ScanFromReassembles(lower, next, rest');
      var sub := ScanFrom(lower, next, rest');
      assert ScanFrom(upper, lower, rest) == Scan([upper] + sub.meta, sub.outcome);
      if sub.outcome.Ok? {
        ConcatCons(upper, sub.meta);
        Reassociate(upper, Concat(sub.meta), BodyOf(sub.outcome.value), lower, next, rest');
      }
    }
  }

  lemma Reassociate(u: string, m: string, b: string, l: string, n: string, r: string)
    requires m + b == l + n + r
    ensures u + m + b == u + l + (n + r)
  {
    calc {
      u + m + b;
      u + (m + b);
      u + (l + n + r);
      u + l + (n + r);
    }
  }

  lemma ScanPageReassembles(s: string)
    ensures var sc := ScanPage(s);
            sc.outcome.Ok? ==> Concat(sc.meta) + BodyOf(sc.outcome.value) == s
  {
    var n1 := NextLine(s);
    if n1.Some? {
      var (upper, r1) := n1.value;
      var n2 := NextLine(r1);
      if n2.Some? {
        var (lower, r2) := n2.value;
        ScanFromReassembles(upper, lower, r2);
        assert ScanPage(s) == ScanFrom(upper, lower, r2);
        assert s == upper + lower + r2;
      }
    }
  }

  /** On success the metadata lines followed by the body are the input. */
  lemma LoadPageReassembles(p: Page, s: string)
    requires MetadataSafe(s)
    ensures LoadPage(p, s).Ok? ==> Concat(ScanPage(s).meta) + LoadPage(p, s).value.body == s
  {
    ScanPageReassembles(s);
  }

  lemma SuffixOfConcat(s: string, a: string, b: string)
    requires s == a + b
    ensures HasSuffix(s, b)
  {
    assert s[|s| - |b|..] == b;
  }

  // ---------------------------------------------------------------------
  // The same reading, stated over the list of lines

  /** The newline-terminated lines of `s`, in order. */
  function Lines(s: string): seq<string>
    decreases |s|
  {
    var n := NextLine(s);
    if n.None? then [] else [n.value.0] + Lines(n.value.1)
  }

  /** The bytes after the last newline of `s`. */
  function Tail(s: string): string
    decreases |s|
  {
    var n := NextLine(s);
    if n.None? then s else Tail(n.value.1)
  }

  /** `ReadBytes` stops at the first newline. */
  lemma {:induction false} NextLineStopsAtFirstNewline(s: string)
    ensures NextLine(s).Some? ==> var line := NextLine(s).value.0;
              '\n' !in line[..|line| - 1]
  {
    if |s| > 0 && s[0] != '\n' {
      NextLineStopsAtFirstNewline(s[1..]);
      var n := NextLine(s[1..]);
      if n.Some? {
        var line := n.value.0;
        assert ([s[0]] + line)[..|line|] == [s[0]] + line[..|line| - 1];
      }
    }
  }

  /** The lines and the tail give back the input. */
  lemma {:induction false} LinesTail(s: string)
    ensures Concat(Lines(s)) + Tail(s) == s
    decreases |s|
  {
    var n := NextLine(s);
    if n.Some? {
      var (line, rest) := n.value;
      LinesTail(rest);
      ConcatCons(line, Lines(rest));
    }
  }

  /** `k` is the first position after the first line holding an underline. */
  predicate FirstUnderline(ls: seq<string>, k: int) {
    1 <= k < |ls| && LineIsTitle(ls[k]) && forall j :: 1 <= j < k ==> !LineIsTitle(ls[j])
  }

  lemma {:induction false} ScanFromUnderline(upper: string, lower: string, rest: string, k: int)
    requires FirstUnderline([upper, lower] + Lines(rest), k)
    ensures var ls := [upper, lower] + Lines(rest);
            ScanFrom(upper, lower, rest)
              == Scan(ls[..k - 1], Ok(Layout(ls[k - 1], ls[k], Concat(ls[k + 1..]) + Tail(rest))))
    decreases |rest|
  {
    var ls := [upper, lower] + Lines(rest);
    assert ls[1] == lower;
    if LineIsTitle(lower) {
      assert k == 1;
      assert ls[2..] == Lines(rest);
      LinesTail(rest);
    } else {
      var n := NextLine(rest).value;
      ScanFromStep(upper, lower, rest);
      UnderlineShift(ls, k);
      ScanFromUnderline(lower, n.0, n.1, k - 1);
    }
  }

  /** A line that is not an underline is passed on, and scanning moves down
      one line: the lines seen from there are the same lines less the first. */
  lemma ScanFromStep(upper: string, lower: string, rest: string)
    requires !LineIsTitle(lower) && NextLine(rest).Some?
    ensures var n := NextLine(rest).value; var sc := ScanFrom(lower, n.0, n.1);
            && ScanFrom(upper, lower, rest) == Scan([upper] + sc.meta, sc.outcome)
            && ([upper, lower] + Lines(rest))[1..] == [lower, n.0] + Lines(n.1)
            && Tail(rest) == Tail(n.1)
  {
    LinesStep(rest);
  }

  /** One more line read: `Lines` and `Tail` step past it. */
  lemma LinesStep(s: string)
    requires NextLine(s).Some?
    ensures var (line, rest) := NextLine(s).value;
            Lines(s) == [line] + Lines(rest) && Tail(s) == Tail(rest)
  {
  }

  /** Dropping the first line moves the first underline up by one. */
  lemma UnderlineShift(ls: seq<string>, k: int)
    requires FirstUnderline(ls, k) && k >= 2
    ensures var ls' := ls[1..];
            && FirstUnderline(ls', k - 1)
            && ls[..k - 1] == [ls[0]] + ls'[..k - 2]
            && ls'[k - 2] == ls[k - 1] && ls'[k - 1] == ls[k]
            && ls'[k..] == ls[k + 1..]
  {
    var ls' := ls[1..];
    forall j | 1 <= j < k - 1 ensures !LineIsTitle(ls'[j]) {
      assert ls'[j] == ls[j + 1];
    }
  }

  /** Dropping the first line keeps "no underline after the first line". */
  lemma NoUnderlineShift(ls: seq<string>)
    requires |ls| >= 2 && forall j :: 1 <= j < |ls| ==> !LineIsTitle(ls[j])
    ensures var ls' := ls[1..];
            && (forall j :: 1 <= j < |ls'| ==> !LineIsTitle(ls'[j]))
            && ls[..|ls| - 1] == [ls[0]] + ls'[..|ls'| - 1]
  {
    var ls' := ls[1..];
    forall j | 1 <= j < |ls'| ensures !LineIsTitle(ls'[j]) {
      assert ls'[j] == ls[j + 1];
    }
  }

  lemma {:induction false} ScanFromNoUnderline(upper: string, lower: string, rest: string)
    requires var ls := [upper, lower] + Lines(rest);
             forall j :: 1 <= j < |ls| ==> !LineIsTitle(ls[j])
    ensures var ls := [upper, lower] + Lines(rest);
            ScanFrom(upper, lower, rest) == Scan(ls[..|ls| - 1], Err(NeverHitTitle))
    decreases |rest|
  {
    var ls := [upper, lower] + Lines(rest);
    assert ls[1] == lower;
    if NextLine(rest).Some? {
      var n := NextLine(rest).value;
      ScanFromStep(upper, lower, rest);
      NoUnderlineShift(ls);
      ScanFromNoUnderline(lower, n.0, n.1);
    } else {
      assert Lines(rest) == [];
    }
  }

  /** With an underline after the first line, the metadata lines are the
      lines before the title line, where the title line is the one above the
      first underline, and the body is everything from the title line on. */
  lemma ScanPageUnderline(s: string, k: int)
    requires FirstUnderline(Lines(s), k)
    ensures var ls := Lines(s);
            ScanPage(s) == Scan(ls[..k - 1], Ok(Layout(ls[k - 1], ls[k], Concat(ls[k + 1..]) + Tail(s))))
  {
    ScanPageStart(s);
    var (upper, r1) := NextLine(s).value;
    var (lower, r2) := NextLine(r1).value;
    ScanFromUnderline(upper, lower, r2, k);
  }

  /** With two lines or more, the scan starts from the first two. */
  lemma ScanPageStart(s: string)
    requires |Lines(s)| >= 2
    ensures NextLine(s).Some? && NextLine(NextLine(s).value.1).Some?
    ensures var (upper, r1) := NextLine(s).value;
            var (lower, r2) := NextLine(r1).value;
            && Lines(s) == [upper, lower] + Lines(r2) && Tail(s) == Tail(r2)
            && ScanPage(s) == ScanFrom(upper, lower, r2)
  {
    assert NextLine(s).Some?;
    LinesStep(s);
    var r1 := NextLine(s).value.1;
    assert |Lines(r1)| >= 1;
    assert NextLine(r1).Some?;
    LinesStep(r1);
  }

  /** No newline, or a single line, is an error of its own; with two lines or
      more and no underline after the first, every line but the last has
      been processed. */
  lemma ScanPageNoUnderline(s: string)
    requires forall j :: 1 <= j < |Lines(s)| ==> !LineIsTitle(Lines(s)[j])
    ensures var ls := Lines(s);
            && (|ls| == 0 ==> ScanPage(s) == Scan([], Err(OnlyOneLine)))
            && (|ls| == 1 ==> ScanPage(s) == Scan([], Err(JustATitle)))
            && (|ls| >= 2 ==> ScanPage(s) == Scan(ls[..|ls| - 1], Err(NeverHitTitle)))
  {
    if |Lines(s)| >= 2 {
      ScanPageStart(s);
      var (upper, r1) := NextLine(s).value;
      var (lower, r2) := NextLine(r1).value;
      ScanFromNoUnderline(upper, lower, r2);
    }
  }

  /** `LoadPage` stated over the lines of the input: with an underline after
      the first line it processes the lines above the title line and keeps
      the rest as the body. */
  lemma LoadPageByLines(p: Page, s: string, k: int)
    requires MetadataSafe(s)
    requires FirstUnderline(Lines(s), k)
    ensures ScanPage(s).meta == Lines(s)[..k - 1]
    ensures LoadPage(p, s) == Ok(ProcessAll(p, Lines(s)[..k - 1]).(body := Concat(Lines(s)[k - 1..]) + Tail(s)))
  {
    var ls := Lines(s);
    ScanPageUnderline(s, k);
    var l := Layout(ls[k - 1], ls[k], Concat(ls[k + 1..]) + Tail(s));
    assert ScanPage(s).outcome == Ok(l);
    assert LoadPage(p, s) == Ok(ProcessAll(p, ls[..k - 1]).(body := BodyOf(l)));
    BodyFromTitleLine(ls, k, Tail(s));
  }

  lemma BodyFromTitleLine(ls: seq<string>, k: int, tail: string)
    requires 1 <= k < |ls|
    ensures ls[k - 1] + ls[k] + (Concat(ls[k + 1..]) + tail) == Concat(ls[k - 1..]) + tail
  {
    assert ls[k - 1..] == [ls[k - 1]] + ([ls[k]] + ls[k + 1..]);
    ConcatCons(ls[k - 1], [ls[k]] + ls[k + 1..]);
    ConcatCons(ls[k], ls[k + 1..]);
  }

  /** `LoadPage` fails exactly when no underline follows the first line, and
      says why. */
  lemma LoadPageFails(p: Page, s: string)
    requires MetadataSafe(s)
    ensures (forall k :: !FirstUnderline(Lines(s), k)) <==> LoadPage(p, s).Err?
    ensures |Lines(s)| == 0 ==> LoadPage(p, s) == Err(OnlyOneLine)
    ensures |Lines(s)| == 1 ==> LoadPage(p, s) == Err(JustATitle)
    ensures |Lines(s)| >= 2 && (forall k :: !FirstUnderline(Lines(s), k)) ==> LoadPage(p, s) == Err(NeverHitTitle)
  {
    var ls := Lines(s);
    if forall k :: !FirstUnderline(ls, k) {
      forall j | 1 <= j < |ls| ensures !LineIsTitle(ls[j]) {
        NoUnderlineBefore(ls, j);
      }
      ScanPageNoUnderline(s);
    } else {
      var k :| FirstUnderline(ls, k);
      ScanPageUnderline(s, k);
    }
  }

  /** With no first underline, no line from the second on is an underline. */
  lemma {:induction false} NoUnderlineBefore(ls: seq<string>, j: int)
    requires 1 <= j < |ls|
    requires forall k :: !FirstUnderline(ls, k)
    ensures !LineIsTitle(ls[j])
    decreases j
  {
    if j > 1 {
      NoUnderlineBefore(ls, j - 1);
      forall i | 1 <= i < j ensures !LineIsTitle(ls[i]) {
        NoUnderlineBefore(ls, i);
      }
    }
    assert !FirstUnderline(ls, j);
  }

  /** A page loaded from a space-free start is space-free. */
  lemma LoadPageSpaceFree(p: Page, s: string)
    requires MetadataSafe(s) && SpaceFree(p)
    ensures LoadPage(p, s).Ok? ==> SpaceFree(LoadPage(p, s).value)
  {
    ProcessAllSpaceFree(p, ScanPage(s).meta);
  }

  // ---------------------------------------------------------------------
  // Queries on a loaded page

  /** A three-line page: one topic line, a title and its underline. */
  const OneTopicPage := "topic=x\nT\n=\n"

  lemma OneTopicPageScans()
    ensures ScanPage(OneTopicPage) == Scan(["topic=x\n"], Ok(Layout("T\n", "=\n", "")))
  {
    OneTopicFirstLine();
    OneTopicLaterLines();
    OneTopicScanFrom();
  }

  lemma OneTopicScanFrom()
    ensures ScanFrom("topic=x\n", "T\n", "=\n") == Scan(["topic=x\n"], Ok(Layout("T\n", "=\n", "")))
  {
    var u, t, e := "topic=x\n", "T\n", "=\n";
    assert NextLine(e) == Some((e, "")) by { OneTopicLaterLines(); }
    assert !LineIsTitle(t) && LineIsTitle(e) by { OneTopicPageTitle(); }
    ScanFromStep(u, t, e);
    ScanFromAtUnderline(t, e, "");
    assert [u] + [] == [u];
  }

  /** The loop stops as soon as the lower line is an underline. */
  lemma ScanFromAtUnderline(upper: string, lower: string, rest: string)
    requires LineIsTitle(lower)
    ensures ScanFrom(upper, lower, rest) == Scan([], Ok(Layout(upper, lower, rest)))
  {
  }

  lemma OneTopicFirstLine()
    ensures NextLine(OneTopicPage) == Some(("topic=x\n", "T\n=\n"))
  {
    var line, rest := "topic=x\n", "T\n=\n";
    assert OneTopicPage == line + rest;
    NextLineSplit(line, rest);
  }

  lemma OneTopicLaterLines()
    ensures NextLine("T\n=\n") == Some(("T\n", "=\n"))
    ensures NextLine("=\n") == Some(("=\n", ""))
  {
    NextLineSplit("T\n", "=\n");
    NextLineSplit("=\n", "");
  }

  /** A line with its newline, followed by anything, is read back whole. */
  lemma NextLineSplit(line: string, rest: string)
    requires |line| > 0 && line[|line| - 1] == '\n' && '\n' !in line[..|line| - 1]
    ensures NextLine(line + rest) == Some((line, rest))
  {
    var s := line + rest;
    var n := |line| - 1;
    forall i | 0 <= i < n ensures s[i] != '\n' {
      assert s[i] == line[..n][i];
    }
    NextLineLiteral(s, n);
    assert s[..n + 1] == line && s[n + 1..] == rest;
  }

  lemma OneTopicPageTitle()
    ensures !LineIsTitle("T\n") && LineIsTitle("=\n")
  {
    assert TrimSpace("=\n") == "=" by { assert "=\n"[..1] == "="; }
    assert TrimSpace("T\n") == "T" by { assert "T\n"[..1] == "T"; }
  }

  /** Walking back from the first newline at `n`: the line is `s[..n + 1]`. */
  lemma {:induction false} NextLineLiteral(s: string, n: nat)
    requires n < |s| && s[n] == '\n' && forall i :: 0 <= i < n ==> s[i] != '\n'
    ensures NextLine(s) == Some((s[..n + 1], s[n + 1..]))
    decreases n
  {
    if n > 0 {
      NextLineLiteral(s[1..], n - 1);
      assert [s[0]] + s[1..][..n] == s[..n + 1];
    }
  }

  /** That page loads, with the topic `x`. */
  lemma OneTopicPageLoads()
    ensures MetadataSafe(OneTopicPage)
    ensures LoadPage(EmptyPage, OneTopicPage).Ok? && "x" in LoadPage(EmptyPage, OneTopicPage).value.topics
  {
    var meta, l := ["topic=x\n"], Layout("T\n", "=\n", "");
    OneTopicPageScans();
    OneTopicProcessed();
    assert MetadataSafe(OneTopicPage);
    LoadPageOfScan(EmptyPage, OneTopicPage, meta, l);
  }

  /** `LoadPage` once the scan is known. */
  lemma LoadPageOfScan(p: Page, s: string, meta: seq<string>, l: Layout)
    requires MetadataSafe(s) && ScanPage(s) == Scan(meta, Ok(l))
    ensures forall i :: 0 <= i < |meta| ==> LineSafe(meta[i])
    ensures LoadPage(p, s) == Ok(ProcessAll(p, meta).(body := BodyOf(l)))
  {
  }

  lemma OneTopicProcessed()
    ensures LineSafe("topic=x\n") && "x" in ProcessAll(EmptyPage, ["topic=x\n"]).topics
  {
    var line := "topic=x\n";
    TopicLine();
    assert "x" in ProcessMetadata(EmptyPage, line).topics by {
      LineSafeKeys(line);
      FoundIff(line, TopicKeys);
    }
    assert ProcessAll(EmptyPage, [line]) == ProcessMetadata(EmptyPage, line) by {
      assert [line][1..] == [];
    }
  }

  lemma TopicLine()
    ensures LineSafe("topic=x\n") && CheckMatch("topic=x\n", "topic") == Some("x")
  {
    var line, v := "topic=x\n", "=x";
    assert line[5..] == "=x\n";
    assert TrimSpace("=x\n") == v by { assert "=x\n"[..2] == v; }
    CheckMatchOn(line, "topic", v);
    assert CutValue(v) == "x" by { assert v[1..] == "x"; }
    SlugsOf(v, "x", "x");
    assert CollapseDashes("x") == "x";
    TopicLineKeys();
  }

  /** Of the five keys, only `topic` starts that line. */
  lemma TopicLineKeys()
    ensures var line := "topic=x\n";
            !KeyMatches(line, "tag") && !KeyMatches(line, "category") && !KeyMatches(line, "keyword")
            && !KeyMatches(line, "meta") && KeyMatches(line, "topic")
  {
    var line := "topic=x\n";
    assert line[..3][1] != "tag"[1];
    assert line[..8][0] != "category"[0];
    assert line[..7][0] != "keyword"[0];
    assert line[..4][0] != "meta"[0];
    assert line[..5] == "topic";
  }

  /** `MatchedTag`: some tag of `tags` is one of the page's topics. */
  function MatchedTag(p: Page, tags: seq<string>): (r: bool)
    ensures r <==> exists i :: 0 <= i < |tags| && tags[i] in p.topics
  {
    if |tags| == 0 then false
    else if tags[0] in p.topics then true
    else MatchedTag(p, tags[1..])
  }

  /** `ListMeta`: the topics and the keywords, each sorted. */
  function ListMeta(p: Page): (r: (seq<string>, seq<string>))
    ensures StrictlyAscending(r.0) && StrictlyAscending(r.1)
    ensures forall t :: t in r.0 <==> t in p.topics
    ensures forall k :: k in r.1 <==> k in p.keywords
    ensures |r.0| == |p.topics| && |r.1| == |p.keywords|
  {
    (SortedList(p.topics), SortedList(p.keywords))
  }

  const TagOpen := "<div class='tag'>"
  const TagClose := "</div>"

  /** The loop of `PrintTopics`: each topic replaces the response. */
  function LastTag(prefix: string, ts: seq<string>, acc: string): (r: string)
    ensures |ts| == 0 ==> r == acc
    ensures |ts| > 0 ==> r == TagOpen + prefix + ts[|ts| - 1] + TagClose
  {
    if |ts| == 0 then acc else LastTag(prefix, ts[1..], TagOpen + prefix + ts[0] + TagClose)
  }

  /** `PrintTopics`: one tag element for the greatest topic only, since the
      loop overwrites the response on every topic; empty without topics. */
  function PrintTopics(p: Page, prefix: string): (r: string)
    ensures p.topics == {} ==> r == ""
    ensures p.topics != {} ==>
              exists t :: t in p.topics && (forall u :: u in p.topics ==> Below(u, t))
                          && r == TagOpen + prefix + t + TagClose
  {
    var ts := ListMeta(p).0;
    LastIsGreatest(ts);
    LastTag(prefix, ts, "")
  }

  lemma LastIsGreatest(ts: seq<string>)
    requires StrictlyAscending(ts)
    ensures |ts| > 0 ==> forall u :: u in ts ==> Below(u, ts[|ts| - 1])
  {
    if |ts| > 0 {
      forall u | u in ts ensures Below(u, ts[|ts| - 1]) {
        var i :| 0 <= i < |ts| && ts[i] == u;
        if i < |ts| - 1 { assert Less(ts[i], ts[|ts| - 1]); } else { BelowReflexive(u); }
      }
    }
  }

  const KeywordsOpen := "<meta name='keywords' content='"
  const KeywordsClose := "'>"

  /** The loop of `PrintKeywords`: `bytes.Join([response, k], ",")` per keyword. */
  function CommaAccumulate(acc: string, ks: seq<string>): string
    decreases |ks|
  {
    if |ks| == 0 then acc else CommaAccumulate(acc + "," + ks[0], ks[1..])
  }

  /** `PrintKeywords`: nothing without keywords, otherwise a keywords meta
      element whose content is the accumulated list with commas trimmed from
      both ends. */
  function PrintKeywords(p: Page): (r: string)
    ensures p.keywords == {} <==> r == ""
    ensures p.keywords != {} ==> HasPrefix(r, KeywordsOpen) && HasSuffix(r, KeywordsClose)
  {
    if |p.keywords| > 0 then
      var ks := ListMeta(p).1;
      KeywordsOpen + Trim(CommaAccumulate("", ks), {','}) + KeywordsClose
    else ""
  }

  lemma {:induction false} CommaAccumulateJoin(acc: string, ks: seq<string>)
    requires |ks| > 0
    ensures CommaAccumulate(acc, ks) == acc + "," + Join(ks, ",")
    decreases |ks|
  {
    if |ks| > 1 {
      CommaAccumulateJoin(acc + "," + ks[0], ks[1..]);
      assert acc + "," + ks[0] + "," + Join(ks[1..], ",") == acc + "," + (ks[0] + "," + Join(ks[1..], ","));
    }
  }

  lemma {:induction false} JoinLast(ks: seq<string>, sep: string)
    requires |ks| > 0 && ks[|ks| - 1] != []
    ensures var j := Join(ks, sep); var l := ks[|ks| - 1];
            |j| > 0 && j[|j| - 1] == l[|l| - 1]
    decreases |ks|
  {
    if |ks| > 1 {
      JoinLast(ks[1..], sep);
    }
  }

  /** With keywords that are non-empty and free of commas, the content of the
      keywords element is the sorted keywords joined by commas, and splitting
      it at the commas gives them back. */
  lemma PrintKeywordsJoins(p: Page)
    requires forall k :: k in p.keywords ==> k != [] && ',' !in k
    ensures p.keywords != {} ==>
              PrintKeywords(p) == KeywordsOpen + Join(ListMeta(p).1, ",") + KeywordsClose
    ensures p.keywords != {} ==> Split(Join(ListMeta(p).1, ","), ',') == ListMeta(p).1
  {
    if p.keywords != {} {
      var ks := ListMeta(p).1;
      assert forall i :: 0 <= i < |ks| ==> ks[i] in p.keywords;
      CommaContent(ks);
    }
  }

  /** The content of the keywords element is the sorted keywords joined by
      commas whenever the trim has nothing of theirs to take: the first
      keyword does not start with a comma and the last does not end with
      one. Commas inside keywords, as in `a,-b`, are kept. */
  lemma PrintKeywordsContent(p: Page)
    requires var ks := ListMeta(p).1;
             && |ks| > 0 && ks[0] != [] && ks[0][0] != ','
             && ks[|ks| - 1] != [] && ks[|ks| - 1][|ks[|ks| - 1]| - 1] != ','
    ensures PrintKeywords(p) == KeywordsOpen + Join(ListMeta(p).1, ",") + KeywordsClose
  {
    var ks := ListMeta(p).1;
    var j := Join(ks, ",");
    JoinLast(ks, ",");
    assert |ks| == 1 || j == ks[0] + ("," + Join(ks[1..], ","));
    assert j[0] == ks[0][0];
    CommaAccumulateJoin("", ks);
    TrimLeadingComma(j);
  }

  /** The accumulated, comma-trimmed list of non-empty, comma-free words is
      their comma join, which splits back into them. */
  lemma CommaContent(ks: seq<string>)
    requires |ks| > 0
    requires forall i :: 0 <= i < |ks| ==> ks[i] != [] && ',' !in ks[i]
    ensures Trim(CommaAccumulate("", ks), {','}) == Join(ks, ",")
    ensures Split(Join(ks, ","), ',') == ks
  {
    JoinEnds(ks);
    CommaAccumulateJoin("", ks);
    TrimLeadingComma(Join(ks, ","));
    SplitJoin(ks, ',');
  }

  /** A comma join of non-empty, comma-free words neither starts nor ends
      with a comma. */
  lemma JoinEnds(ks: seq<string>)
    requires |ks| > 0
    requires forall i :: 0 <= i < |ks| ==> ks[i] != [] && ',' !in ks[i]
    ensures var j := Join(ks, ","); |j| > 0 && j[0] != ',' && j[|j| - 1] != ','
  {
    var j := Join(ks, ",");
    var l := ks[|ks| - 1];
    JoinLast(ks, ",");
    assert l[|l| - 1] in l;
    assert |ks| == 1 || j == ks[0] + ("," + Join(ks[1..], ","));
    assert j[0] == ks[0][0] && ks[0][0] in ks[0];
  }

  lemma TrimLeadingComma(j: string)
    requires |j| > 0 && j[0] != ',' && j[|j| - 1] != ','
    ensures Trim("" + "," + j, {','}) == j
  {
    assert ("" + "," + j)[1..] == j;
    assert TrimLeft("" + "," + j, {','}) == j;
  }
}
