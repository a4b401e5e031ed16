/**
 * Byte-string helpers with the semantics of the Go `bytes` and `strings`
 * functions the wiki server calls. A byte string is a `string` whose every
 * character stands for one byte.
 */
module Text {

  /** The bytes `bytes.TrimSpace` strips on its ASCII path: tab, newline,
      vertical tab, form feed, carriage return and space. */
  const AsciiSpace: set<char> := {' ', '\t', '\n', '\U{000B}', '\U{000C}', '\r'}

  predicate IsSpace(c: char) {
    c in AsciiSpace
  }

  predicate AllIn(s: string, cut: set<char>) {
    forall i :: 0 <= i < |s| ==> s[i] in cut
  }

  /** `bytes.TrimLeft`: drop the longest prefix made of bytes from `cut`. */
  function TrimLeft(s: string, cut: set<char>): (r: string)
    ensures |r| <= |s|
  {
    if |s| > 0 && s[0] in cut then TrimLeft(s[1..], cut) else s
  }

  /** `TrimLeft` keeps a suffix, cuts only bytes of `cut`, and stops at the
      first byte outside `cut`. */
  lemma {:induction false} TrimLeftFacts(s: string, cut: set<char>)
    ensures var r := TrimLeft(s, cut);
            && r == s[|s| - |r|..]
            && AllIn(s[..|s| - |r|], cut)
            && (|r| > 0 ==> r[0] !in cut)
  {
    if |s| > 0 && s[0] in cut {
      TrimLeftFacts(s[1..], cut);
      var r := TrimLeft(s, cut);
      assert s[..|s| - |r|] == [s[0]] + s[1..][..|s| - 1 - |r|];
    }
  }

  /** `bytes.TrimRight`: drop the longest suffix made of bytes from `cut`. */
  function TrimRight(s: string, cut: set<char>): (r: string)
    ensures |r| <= |s|
  {
    if |s| > 0 && s[|s| - 1] in cut then TrimRight(s[..|s| - 1], cut) else s
  }

  /** `TrimRight` keeps a prefix, cuts only bytes of `cut`, and stops at the
      last byte outside `cut`. */
  lemma {:induction false} TrimRightFacts(s: string, cut: set<char>)
    ensures var r := TrimRight(s, cut);
            && r == s[..|r|]
            && AllIn(s[|r|..], cut)
            && (|r| > 0 ==> r[|r| - 1] !in cut)
  {
    if |s| > 0 && s[|s| - 1] in cut {
      var t := s[..|s| - 1];
      TrimRightFacts(t, cut);
      var r := TrimRight(s, cut);
      assert s[|r|..] == t[|r|..] + [s[|s| - 1]];
    }
  }

  /** `bytes.Trim(s, cutset)`: strip bytes of `cut` from both ends. The result
      is a slice of `s` whose first and last bytes are outside `cut`, and
      everything cut off lies inside `cut`. */
  function Trim(s: string, cut: set<char>): (r: string)
    ensures |r| <= |s|
  {
    TrimRight(TrimLeft(s, cut), cut)
  }

  /** A leading byte of `cut` is trimmed away. */
  lemma TrimDropsFirst(c: char, s: string, cut: set<char>)
    requires c in cut
    ensures Trim([c] + s, cut) == Trim(s, cut)
  {
    assert ([c] + s)[1..] == s;
  }

  /** A string that starts and ends outside `cut` is its own trim. */
  lemma TrimKeeps(s: string, cut: set<char>)
    requires |s| > 0 && s[0] !in cut && s[|s| - 1] !in cut
    ensures Trim(s, cut) == s
  {
  }

  /** What `Trim` keeps: a slice of `s` whose first and last bytes are outside
      `cut`, with everything cut off inside `cut`; nothing is kept exactly
      when every byte is in `cut`. */
  lemma TrimFacts(s: string, cut: set<char>)
    ensures var r := Trim(s, cut);
            && (exists a :: 0 <= a <= |s| - |r| && r == s[a..a + |r|]
                            && AllIn(s[..a], cut) && AllIn(s[a + |r|..], cut))
            && (|r| > 0 ==> r[0] !in cut && r[|r| - 1] !in cut)
            && (AllIn(s, cut) <==> r == [])
  {
    var l := TrimLeft(s, cut);
    var r := TrimRight(l, cut);
    TrimSlice(s, l, r, |s| - |l|, cut);
    TrimEmpty(s, l, r, |s| - |l|, cut);
    TrimLeftFacts(s, cut);
    TrimRightFacts(l, cut);
  }

  lemma TrimEmpty(s: string, l: string, r: string, a: int, cut: set<char>)
    requires l == TrimLeft(s, cut) && r == TrimRight(l, cut) && a == |s| - |l|
    ensures AllIn(s, cut) <==> r == []
  {
    TrimSlice(s, l, r, a, cut);
    TrimLeftFacts(s, cut);
    TrimRightFacts(l, cut);
    if r == [] {
      AllInGlue(s, a, cut);
    }
  }

  lemma TrimSlice(s: string, l: string, r: string, a: int, cut: set<char>)
    requires l == TrimLeft(s, cut) && r == TrimRight(l, cut) && a == |s| - |l|
    ensures 0 <= a <= |s| - |r| && r == s[a..a + |r|]
    ensures AllIn(s[..a], cut) && AllIn(s[a + |r|..], cut)
  {
    TrimLeftFacts(s, cut);
    TrimRightFacts(l, cut);
    assert s[a + |r|..] == l[|r|..];
  }

  lemma AllInGlue(s: string, a: int, cut: set<char>)
    requires 0 <= a <= |s|
    requires AllIn(s[..a], cut) && AllIn(s[a..], cut)
    ensures AllIn(s, cut)
  {
    forall i | 0 <= i < |s| ensures s[i] in cut {
      if i < a {
        assert s[..a][i] == s[i];
      } else {
        assert s[a..][i - a] == s[i];
      }
    }
  }

  /** `bytes.TrimSpace` restricted to ASCII whitespace. */
  function TrimSpace(s: string): string {
    Trim(s, AsciiSpace)
  }

  predicate HasPrefix(s: string, p: string) {
    |p| <= |s| && s[..|p|] == p
  }

  predicate HasSuffix(s: string, x: string) {
    |x| <= |s| && s[|s| - |x|..] == x
  }

  /** `strings.TrimPrefix`: `s` without `p` when `s` starts with `p`, else `s`. */
  function TrimPrefix(s: string, p: string): (r: string)
    ensures HasPrefix(s, p) ==> p + r == s
    ensures !HasPrefix(s, p) ==> r == s
  {
    if HasPrefix(s, p) then s[|p|..] else s
  }

  /** `bytes.Replace(s, [from], [to], -1)` for single-byte patterns. */
  function ReplaceByte(s: string, from: char, to: char): (r: string)
    ensures |r| == |s|
    ensures forall i :: 0 <= i < |s| ==> r[i] == (if s[i] == from then to else s[i])
    ensures from != to ==> from !in r
  {
    if |s| == 0 then "" else [if s[0] == from then to else s[0]] + ReplaceByte(s[1..], from, to)
  }

  /** Replacing works byte by byte, so it distributes over concatenation. */
  lemma ReplaceByteAppend(p: string, q: string, from: char, to: char)
    ensures ReplaceByte(p + q, from, to) == ReplaceByte(p, from, to) + ReplaceByte(q, from, to)
  {
    var r, l := ReplaceByte(p + q, from, to), ReplaceByte(p, from, to) + ReplaceByte(q, from, to);
    assert forall i :: 0 <= i < |r| ==> r[i] == l[i];
  }

  /** The bytes of `s` that are not in `drop`, in their order. */
  function Without(s: string, drop: set<char>): (r: string)
    ensures |r| <= |s|
    ensures forall c :: c in r ==> c in s && c !in drop
  {
    if |s| == 0 then "" else (if s[0] in drop then "" else [s[0]]) + Without(s[1..], drop)
  }

  /** Once the replacement byte is dropped, replacing forgets nothing else:
      the other bytes survive, in order. */
  lemma {:induction false} WithoutReplace(s: string, from: char, to: char, drop: set<char>)
    requires to in drop
    ensures Without(ReplaceByte(s, from, to), drop) == Without(s, drop + {from})
  {
    if |s| > 0 {
      var r := ReplaceByte(s, from, to);
      assert r[1..] == ReplaceByte(s[1..], from, to);
      WithoutReplace(s[1..], from, to, drop);
      assert s[0] in drop + {from} <==> s[0] == from || s[0] in drop;
    }
  }

  /** `strings.Join` / `bytes.Join`. */
  function Join(xs: seq<string>, sep: string): string {
    if |xs| == 0 then ""
    else if |xs| == 1 then xs[0]
    else xs[0] + sep + Join(xs[1..], sep)
  }

  /** `strings.Split(s, sep)` for a one-byte separator: the pieces between
      consecutive separators, so the empty string splits to one empty piece. */
  function Split(s: string, sep: char): (r: seq<string>)
    ensures |r| > 0
  {
    if |s| == 0 then [""]
    else
      var rest := Split(s[1..], sep);
      if s[0] == sep then [""] + rest else [[s[0]] + rest[0]] + rest[1..]
  }

  /** The bytes of every string in `xs`, one after another. */
  function Concat(xs: seq<string>): string {
    if |xs| == 0 then "" else xs[0] + Concat(xs[1..])
  }

  lemma ConcatCons(x: string, xs: seq<string>)
    ensures Concat([x] + xs) == x + Concat(xs)
  {
    assert ([x] + xs)[1..] == xs;
  }

  lemma ConcatAppend(xs: seq<string>, ys: seq<string>)
    ensures Concat(xs + ys) == Concat(xs) + Concat(ys)
  {
    if |xs| > 0 {
      assert (xs + ys)[1..] == xs[1..] + ys;
      ConcatAppend(xs[1..], ys);
    } else {
      assert xs + ys == ys;
    }
  }

  /** A piece free of the separator splits to itself. */
  lemma {:induction false} SplitNoSep(x: string, sep: char)
    requires sep !in x
    ensures Split(x, sep) == [x]
  {
    if |x| > 0 {
      SplitNoSep(x[1..], sep);
      assert [x[0]] + x[1..] == x;
    }
  }

  /** Splitting `x sep t`, with `x` free of the separator, peels off `x`. */
  lemma {:induction false} SplitCons(x: string, sep: char, t: string)
    requires sep !in x
    ensures Split(x + [sep] + t, sep) == [x] + Split(t, sep)
  {
    if |x| == 0 {
      assert x + [sep] + t == [sep] + t;
      assert ([sep] + t)[1..] == t;
    } else {
      var s := x + [sep] + t;
      assert s[1..] == x[1..] + [sep] + t;
      SplitCons(x[1..], sep, t);
      assert [x[0]] + x[1..] == x;
    }
  }

  /** Joining pieces free of the separator and splitting again gives the
      pieces back, provided there is at least one piece. */
  lemma {:induction false} SplitJoin(xs: seq<string>, sep: char)
    requires |xs| > 0
    requires forall i :: 0 <= i < |xs| ==> sep !in xs[i]
    ensures Split(Join(xs, [sep]), sep) == xs
  {
    if |xs| == 1 {
      SplitNoSep(xs[0], sep);
    } else {
      SplitJoin(xs[1..], sep);
      SplitCons(xs[0], sep, Join(xs[1..], [sep]));
      assert [xs[0]] + xs[1..] == xs;
    }
  }

  /** Splitting and joining again with the same separator loses nothing. */
  lemma {:induction false} JoinSplit(s: string, sep: char)
    ensures Join(Split(s, sep), [sep]) == s
  {
    if |s| > 0 {
      var rest := Split(s[1..], sep);
      JoinSplit(s[1..], sep);
      if s[0] == sep {
        assert Split(s, sep)[1..] == rest;
        assert [s[0]] + s[1..] == s;
      } else {
        var r := [[s[0]] + rest[0]] + rest[1..];
        assert r[1..] == rest[1..];
        if |rest| == 1 {
          assert [s[0]] + s[1..] == s;
        } else {
          assert rest == [rest[0]] + rest[1..];
          assert Join(rest, [sep]) == rest[0] + [sep] + Join(rest[1..], [sep]);
          assert [s[0]] + s[1..] == s;
        }
      }
    }
  }
}
