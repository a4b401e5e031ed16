/**
 * The error type of error.go: bit-flag error codes, the table of message
 * templates, and the selection `Error()` makes of which optional fields are
 * handed to the formatter. Formatting itself is not modelled: a message is
 * the template together with the ordered list of arguments it receives.
 */
module Errors {
  import opened Wrappers

  /** 2 to the power `n`. */
  function Pow2(n: nat): (r: nat)
    ensures r >= 1
  {
    if n == 0 then 1 else 2 * Pow2(n - 1)
  }

  /** Larger exponents give strictly larger powers. */
  lemma {:induction false} Pow2Increasing(i: nat, j: nat)
    requires i < j
    ensures Pow2(i) < Pow2(j)
    decreases j
  {
    if i < j - 1 {
      Pow2Increasing(i, j - 1);
    }
  }

  const ErrUpgradedError: int := 1
  const ErrBadType: int := 2
  const ErrBadAddressStructure: int := 4
  const ErrBadAddressIndex: int := 8
  const ErrReadConfig: int := 16
  const ErrParseConfig: int := 32
  const ErrPageRead: int := 64
  const ErrPageNoTitle: int := 128
  const ErrParseTemplates: int := 256
  const ErrPageRestricted: int := 512
  const ErrIndexError: int := 1024
  const ErrWatcherCreate: int := 2048
  const ErrWatcherAdd: int := 4096
  const ErrIndexCreate: int := 8192
  const ErrIndexClose: int := 16384
  const ErrIndexRemove: int := 32768
  const ErrFileRead: int := 65536

  /** The declared codes, in declaration order. */
  const Codes: seq<int> := [
    ErrUpgradedError, ErrBadType, ErrBadAddressStructure, ErrBadAddressIndex, ErrReadConfig,
    ErrParseConfig, ErrPageRead, ErrPageNoTitle, ErrParseTemplates, ErrPageRestricted,
    ErrIndexError, ErrWatcherCreate, ErrWatcherAdd, ErrIndexCreate, ErrIndexClose,
    ErrIndexRemove, ErrFileRead]

  /** The codes follow `1 << iota`: the i-th declared code is 2^i. */
  lemma {:induction false} CodesArePowers()
    ensures |Codes| == 17
    ensures forall i :: 0 <= i < |Codes| ==> Codes[i] == Pow2(i)
  {
    assert Pow2(0) == 1;
    assert Pow2(1) == 2;
    assert Pow2(2) == 4;
    assert Pow2(3) == 8;
    assert Pow2(4) == 16;
    assert Pow2(5) == 32;
    assert Pow2(6) == 64;
    assert Pow2(7) == 128;
    assert Pow2(8) == 256;
    assert Pow2(9) == 512;
    assert Pow2(10) == 1024;
    assert Pow2(11) == 2048;
    assert Pow2(12) == 4096;
    assert Pow2(13) == 8192;
    assert Pow2(14) == 16384;
    assert Pow2(15) == 32768;
    assert Pow2(16) == 65536;
  }

  /** No two declared codes coincide, and none shares a bit with another. */
  lemma CodesDistinct()
    ensures forall i, j :: 0 <= i < j < |Codes| ==> Codes[i] < Codes[j]
  {
    CodesArePowers();
    forall i, j | 0 <= i < j < |Codes|
      ensures Codes[i] < Codes[j]
    {
      Pow2Increasing(i, j);
    }
  }

  /** The message template of each code (`errMsg`). */
  const ErrMsg: map<int, string> := map[
    ErrUpgradedError := "nothing to see here",
    ErrBadType := "value at address [%s] is of the wrong type [%s]",
    ErrBadAddressStructure := "got an address mapping that does not match the formatting",
    ErrBadAddressIndex := "got address mapping that does not exist",
    ErrReadConfig := "error reading config [%s] - %v",
    ErrParseConfig := "parse config error %v - contents %#v",
    ErrPageRead := "error reading from file - %v",
    ErrPageNoTitle := "read no titles on the Page",
    ErrParseTemplates := "problem parsing templates - %v",
    ErrPageRestricted := "hit a restricted page - %s",
    ErrIndexError := "problem with index at [%s] - %v",
    ErrWatcherCreate := "problem creating a watcher - %v",
    ErrWatcherAdd := "problem watching a directory %s - %v",
    ErrIndexCreate := "problem creating index at [%s] - %v",
    ErrIndexClose := "failed to close index - %v",
    ErrIndexRemove := "failed to remove index at %s - %v",
    ErrFileRead := "failed to read directory - %s - %v"]

  /** Every declared code has a template, and the table holds nothing else. */
  lemma ErrMsgComplete()
    ensures forall i :: 0 <= i < |Codes| ==> Codes[i] in ErrMsg && |ErrMsg[Codes[i]]| > 0
    ensures forall k :: k in ErrMsg ==> exists i :: 0 <= i < |Codes| && Codes[i] == k
  {
    ErrMsgCoversCodes();
    ErrMsgOnlyCodes();
  }

  lemma ErrMsgCoversCodes()
    ensures forall i :: 0 <= i < |Codes| ==> Codes[i] in ErrMsg && |ErrMsg[Codes[i]]| > 0
  {
  }

  lemma ErrMsgOnlyCodes()
    ensures forall k :: k in ErrMsg ==> exists i :: 0 <= i < |Codes| && Codes[i] == k
  {
    assert ErrMsg.Keys == {ErrUpgradedError, ErrBadType, ErrBadAddressStructure, ErrBadAddressIndex,
                           ErrReadConfig, ErrParseConfig, ErrPageRead, ErrPageNoTitle, ErrParseTemplates,
                           ErrPageRestricted, ErrIndexError, ErrWatcherCreate, ErrWatcherAdd,
                           ErrIndexCreate, ErrIndexClose, ErrIndexRemove, ErrFileRead};
    forall k | k in ErrMsg ensures k in Codes {
    }
  }

  /** The template of a code; a code missing from the table reads as "". */
  function Template(code: int): (r: string)
    ensures r != "" <==> code in Codes
  {
    ErrMsgComplete();
    if code in ErrMsg then ErrMsg[code] else ""
  }

  /** The error value. `value` is the untyped payload (absent when nil);
      `inner` is the wrapped error, represented by its message (absent when
      nil). */
  datatype Error<V> = Error(code: int, path: string, valType: string, value: Option<V>, inner: Option<string>)

  /** One argument handed to the formatter. */
  datatype Arg<V> = PathArg(path: string) | TypeArg(valType: string) | ValueArg(value: V) | InnerArg(inner: string)

  /** What `Error()` produces: the wrapped error's own message, a template
      with its arguments, or a template returned without formatting. */
  datatype Message<V> =
    | Verbatim(text: string)
    | Formatted(template: string, args: seq<Arg<V>>)
    | Raw(template: string)

  /** `UpgradeError`: wrap a foreign error, keeping only its message. */
  function UpgradeError<V>(inner: string): (r: Error<V>)
    ensures r.code == ErrUpgradedError && r.inner == Some(inner)
    ensures r.path == "" && r.valType == "" && r.value.None?
  {
    Error(ErrUpgradedError, "", "", None, Some(inner))
  }

  /** The `switch` of `Error()`: the first case whose fields are all set
      wins. An upgraded error with no inner error would dereference nil. */
  function ErrorMessage<V>(e: Error<V>): (r: Message<V>)
    requires e.code == ErrUpgradedError ==> e.inner.Some?
    ensures e.code == ErrUpgradedError <==> r.Verbatim?
    ensures r.Verbatim? ==> r.text == e.inner.value
    ensures r.Formatted? ==> r.template == Template(e.code) && |r.args| > 0
    ensures r.Raw? <==> e.code != ErrUpgradedError && e.path == "" && e.valType == "" && e.value.None? && e.inner.None?
  {
    var p := e.path != "";
    var t := e.valType != "";
    var v := e.value.Some?;
    var i := e.inner.Some?;
    var tmpl := Template(e.code);
    if e.code == ErrUpgradedError then Verbatim(e.inner.value)
    else if p && t && v && i then
      Formatted(tmpl, [PathArg(e.path), TypeArg(e.valType), ValueArg(e.value.value), InnerArg(e.inner.value)])
    else if p && t && v then Formatted(tmpl, [PathArg(e.path), TypeArg(e.valType), ValueArg(e.value.value)])
    else if p && t && i then Formatted(tmpl, [PathArg(e.path), TypeArg(e.valType), InnerArg(e.inner.value)])
    else if p && v && i then Formatted(tmpl, [PathArg(e.path), ValueArg(e.value.value), InnerArg(e.inner.value)])
    else if t && v && i then Formatted(tmpl, [TypeArg(e.valType), ValueArg(e.value.value), InnerArg(e.inner.value)])
    else if p && t then Formatted(tmpl, [PathArg(e.path), TypeArg(e.valType)])
    else if p && v then Formatted(tmpl, [PathArg(e.path), ValueArg(e.value.value)])
    else if t && v then Formatted(tmpl, [TypeArg(e.valType), ValueArg(e.value.value)])
    else if i then Formatted(tmpl, [InnerArg(e.inner.value)])
    else if v then Formatted(tmpl, [ValueArg(e.value.value)])
    else if t then Formatted(tmpl, [TypeArg(e.valType)])
    else if p then Formatted(tmpl, [PathArg(e.path)])
    else Raw(tmpl)
  }

  /** The optional fields that are set, in field order. */
  function Present<V>(e: Error<V>): (r: seq<Arg<V>>)
    ensures |r| <= 4
  {
    (if e.path != "" then [PathArg(e.path)] else [])
    + (if e.valType != "" then [TypeArg(e.valType)] else [])
    + (if e.value.Some? then [ValueArg(e.value.value)] else [])
    + (if e.inner.Some? then [InnerArg(e.inner.value)] else [])
  }

  /** A description of the selection independent of the case list: every
      set field is passed, in field order, except when exactly two fields
      are set and one of them is the inner error; then only the inner error
      is passed. */
  function SelectedArgs<V>(e: Error<V>): (r: seq<Arg<V>>)
  {
    var all := Present(e);
    if |all| == 2 && e.inner.Some? then [InnerArg(e.inner.value)] else all
  }

  /** The case list of `Error()` and the description above agree on every
      error that is not an upgraded one. */
  lemma ErrorMessageSelects<V>(e: Error<V>)
    requires e.code != ErrUpgradedError
    ensures |Present(e)| == 0 ==> ErrorMessage(e) == Raw(Template(e.code))
    ensures |Present(e)| > 0 ==> ErrorMessage(e) == Formatted(Template(e.code), SelectedArgs(e))
  {
  }

  /** `xs` is `ys` with some elements left out, order kept. */
  ghost predicate Subsequence<T>(xs: seq<T>, ys: seq<T>)
    decreases |ys|
  {
    |xs| == 0 || (|ys| > 0 && ((xs[0] == ys[0] && Subsequence(xs[1..], ys[1..])) || Subsequence(xs, ys[1..])))
  }

  /** The four optional fields as arguments, when all of them are set. */
  function AllArgs<V>(e: Error<V>): (r: seq<Arg<V>>)
    requires e.value.Some? && e.inner.Some?
    ensures |r| == 4
  {
    [PathArg(e.path), TypeArg(e.valType), ValueArg(e.value.value), InnerArg(e.inner.value)]
  }

  /** The arguments handed to the formatter are always drawn from path,
      type, value and inner error, in that order, each at most once. */
  lemma ErrorArgsOrdered<V>(e: Error<V>, someValue: V, someInner: string)
    requires e.code != ErrUpgradedError
    ensures var full := e.(value := if e.value.Some? then e.value else Some(someValue),
                             inner := if e.inner.Some? then e.inner else Some(someInner));
            ErrorMessage(e).Formatted? ==> Subsequence(ErrorMessage(e).args, AllArgs(full))
  {
    var full := e.(value := if e.value.Some? then e.value else Some(someValue),
                   inner := if e.inner.Some? then e.inner else Some(someInner));
    var ys := AllArgs(full);
    ErrorMessageSelects(e);
    if ErrorMessage(e).Formatted? {
      if |Present(e)| == 2 && e.inner.Some? {
        SubsequenceOfFour(ys, false, false, false, true);
        assert ErrorMessage(e).args == Choose(ys, false, false, false, true);
      } else {
        SubsequenceOfFour(ys, e.path != "", e.valType != "", e.value.Some?, e.inner.Some?);
        assert ErrorMessage(e).args == Choose(ys, e.path != "", e.valType != "", e.value.Some?, e.inner.Some?);
      }
    }
  }

  /** The elements of a four-element list that a choice of flags keeps. */
  function Choose<T>(ys: seq<T>, a: bool, b: bool, c: bool, d: bool): (r: seq<T>)
    requires |ys| == 4
    ensures |r| <= 4
  {
    (if a then [ys[0]] else []) + (if b then [ys[1]] else [])
    + (if c then [ys[2]] else []) + (if d then [ys[3]] else [])
  }

  /** Keeping some elements of a four-element list gives a subsequence. */
  lemma SubsequenceOfFour<T>(ys: seq<T>, a: bool, b: bool, c: bool, d: bool)
    requires |ys| == 4
    ensures Subsequence(Choose(ys, a, b, c, d), ys)
  {
    var s3 := (if d then [ys[3]] else []) + [];
    var s2 := (if c then [ys[2]] else []) + s3;
    var s1 := (if b then [ys[1]] else []) + s2;
    var s0 := (if a then [ys[0]] else []) + s1;
    assert ys[3..][1..] == ys[4..];
    SubsequenceStep([], ys[3..], d);
    assert ys[2..][1..] == ys[3..];
    SubsequenceStep(s3, ys[2..], c);
    assert ys[1..][1..] == ys[2..];
    SubsequenceStep(s2, ys[1..], b);
    SubsequenceStep(s1, ys, a);
    assert Choose(ys, a, b, c, d) == s0;
  }

  /** A subsequence of the tail, with or without the head in front, is a
      subsequence of the whole. */
  lemma SubsequenceStep<T>(xs: seq<T>, ys: seq<T>, keep: bool)
    requires |ys| > 0 && Subsequence(xs, ys[1..])
    ensures Subsequence((if keep then [ys[0]] else []) + xs, ys)
  {
    var z := (if keep then [ys[0]] else []) + xs;
    if keep {
      assert z[0] == ys[0] && z[1..] == xs;
    } else {
      assert z == xs;
    }
  }

  /** Only path and inner error set: the inner-error case fires first among
      those that match, so the path is dropped from the message. */
  lemma PathDroppedBesideInner<V>(e: Error<V>)
    requires e.code != ErrUpgradedError && e.path != "" && e.valType == "" && e.value.None? && e.inner.Some?
    ensures ErrorMessage(e) == Formatted(Template(e.code), [InnerArg(e.inner.value)])
  {
  }

  /** An upgraded error reports the wrapped message, whatever else it holds. */
  lemma UpgradedIsVerbatim<V>(e: Error<V>)
    requires e.code == ErrUpgradedError && e.inner.Some?
    ensures ErrorMessage(e) == Verbatim(e.inner.value)
  {
  }

  /** `UpgradeError` followed by `Error()` gives back the wrapped message. */
  lemma UpgradeRoundTrip<V>(inner: string)
    ensures ErrorMessage(UpgradeError<V>(inner)) == Verbatim(inner)
  {
  }
}
