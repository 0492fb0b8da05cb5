/** The first half of `SaveTextFlorence.write_text`: each of the seven inputs
    arrives from the host as a single value or as a list, and is turned into
    a list; then every list is padded to the length of the longest. */
module Normalizer {

  /** An input as the host passes it: a scalar or a list. */
  datatype Input<T> = Scalar(value: T) | List(items: seq<T>)

  /** The seven inputs of `write_text`, in its parameter order. */
  datatype Inputs = Inputs(
    text: Input<string>,
    file: Input<string>,
    enableReplacement: Input<bool>,
    imageStyle: Input<string>,
    genderAgeReplacement: Input<string>,
    loraTrigger: Input<string>,
    negativePromptText: Input<string>)

  /** The normalised batch: the seven lists after padding. Item `i` is the
      `i`-th element of every list. */
  datatype Batch = Batch(
    text: seq<string>,
    file: seq<string>,
    enableReplacement: seq<bool>,
    imageStyle: seq<string>,
    genderAgeReplacement: seq<string>,
    loraTrigger: seq<string>,
    negativePromptText: seq<string>)
  {
    /** All seven lists have the same length, the number of items. */
    predicate WellFormed() {
      |file| == |text| && |enableReplacement| == |text| && |imageStyle| == |text|
      && |genderAgeReplacement| == |text| && |loraTrigger| == |text|
      && |negativePromptText| == |text|
    }
  }

  /** `[x] * n` */
  function Repeat<T>(x: T, n: nat): (r: seq<T>)
    ensures |r| == n
    ensures forall k :: 0 <= k < n ==> r[k] == x
  {
    seq(n, _ => x)
  }

  /** `text` is wrapped on its own: a scalar becomes a one-element list. */
  function WrapText(x: Input<string>): seq<string> {
    match x
    case Scalar(v) => [v]
    case List(xs) => xs
  }

  /** Every other input: a scalar becomes `count` copies, `count` being the
      length of the wrapped `text`. */
  function WrapOther<T>(x: Input<T>, count: nat): seq<T> {
    match x
    case Scalar(v) => Repeat(v, count)
    case List(xs) => xs
  }

  function Max(a: nat, b: nat): nat {
    if a < b then b else a
  }

  /** The element `_extend_list` pads with: the last element, or the empty
      value when the list is empty (`""` in the source; `false` for the flag
      list, which `""` stands for there, being falsy). */
  function PadValue<T>(lst: seq<T>, empty: T): T {
    if lst == [] then empty else lst[|lst| - 1]
  }

  /** `r` is `lst` followed by copies of its pad value. */
  predicate PaddedFrom<T(==)>(r: seq<T>, lst: seq<T>, empty: T) {
    |lst| <= |r|
    && forall k :: 0 <= k < |r| ==> r[k] == if k < |lst| then lst[k] else PadValue(lst, empty)
  }

  /** `_extend_list(lst, target)`. */
  function ExtendList<T>(lst: seq<T>, target: nat, empty: T): (r: seq<T>)
    ensures |r| == Max(|lst|, target)
    ensures PaddedFrom(r, lst, empty)
    ensures |lst| >= target ==> r == lst
  {
    if |lst| < target then lst + Repeat(PadValue(lst, empty), target - |lst|) else lst
  }

  /** The lengths of the seven wrapped lists, `text` first. */
  function WrappedLengths(raw: Inputs): seq<nat> {
    var n := |WrapText(raw.text)|;
    [n, |WrapOther(raw.file, n)|, |WrapOther(raw.enableReplacement, n)|,
     |WrapOther(raw.imageStyle, n)|, |WrapOther(raw.genderAgeReplacement, n)|,
     |WrapOther(raw.loraTrigger, n)|, |WrapOther(raw.negativePromptText, n)|]
  }

  /** `max_length`: the longest of the seven wrapped lists. */
  function MaxLength(raw: Inputs): (m: nat)
    ensures var lens := WrappedLengths(raw);
      (forall k :: 0 <= k < |lens| ==> lens[k] <= m) && exists k :: 0 <= k < |lens| && lens[k] == m
  {
    var lens := WrappedLengths(raw);
    Max(lens[0], Max(lens[1], Max(lens[2], Max(lens[3], Max(lens[4], Max(lens[5], lens[6]))))))
  }

  /** Wrapping and padding, as `write_text` does it before the cache lookup:
      every list gets the length of the longest, its own elements first. */
  function Normalize(raw: Inputs): (b: Batch)
    ensures b.WellFormed() && |b.text| == MaxLength(raw)
    ensures var n := |WrapText(raw.text)|;
      PaddedFrom(b.text, WrapText(raw.text), "")
      && PaddedFrom(b.file, WrapOther(raw.file, n), "")
      && PaddedFrom(b.enableReplacement, WrapOther(raw.enableReplacement, n), false)
      && PaddedFrom(b.imageStyle, WrapOther(raw.imageStyle, n), "")
      && PaddedFrom(b.genderAgeReplacement, WrapOther(raw.genderAgeReplacement, n), "")
      && PaddedFrom(b.loraTrigger, WrapOther(raw.loraTrigger, n), "")
      && PaddedFrom(b.negativePromptText, WrapOther(raw.negativePromptText, n), "")
  {
    var n := |WrapText(raw.text)|;
    var target := MaxLength(raw);
    Batch(
      ExtendList(WrapText(raw.text), target, ""),
      ExtendList(WrapOther(raw.file, n), target, ""),
      ExtendList(WrapOther(raw.enableReplacement, n), target, false),
      ExtendList(WrapOther(raw.imageStyle, n), target, ""),
      ExtendList(WrapOther(raw.genderAgeReplacement, n), target, ""),
      ExtendList(WrapOther(raw.loraTrigger, n), target, ""),
      ExtendList(WrapOther(raw.negativePromptText, n), target, ""))
  }

  /** An element of the padded `enable_replacement` list as the source holds
      it: a flag from the host, or the `""` that `_extend_list` pads an empty
      list with. Only `Bool(true)` is truthy. */
  datatype Flag = Bool(value: bool) | Blank

  predicate Truthy(f: Flag) {
    f.Bool? && f.value
  }

  /** The padded `enable_replacement` list with its `""` padding kept apart
      from `False`, as it enters the cache key. */
  function Flags(raw: Inputs): (r: seq<Flag>)
    ensures |r| == MaxLength(raw)
    ensures forall k :: 0 <= k < |r| ==> Truthy(r[k]) == Normalize(raw).enableReplacement[k]
    ensures var w := WrapOther(raw.enableReplacement, |WrapText(raw.text)|);
      forall k :: 0 <= k < |r| ==>
        r[k] == if k < |w| then Bool(w[k]) else if w == [] then Blank else Bool(w[|w| - 1])
  {
    var w := WrapOther(raw.enableReplacement, |WrapText(raw.text)|);
    var r := ExtendList(AsFlags(w), MaxLength(raw), Blank);
    PaddedFlags(r, w, Normalize(raw).enableReplacement);
    r
  }

  /** The host's flags, each as a `Bool`. */
  function AsFlags(w: seq<bool>): (r: seq<Flag>)
    ensures |r| == |w| && forall k :: 0 <= k < |w| ==> r[k] == Bool(w[k])
  {
    seq(|w|, k requires 0 <= k < |w| => Bool(w[k]))
  }

  /** Padding with `Blank` and padding with `false` agree on truthiness. */
  lemma PaddedFlags(r: seq<Flag>, w: seq<bool>, e: seq<bool>)
    requires PaddedFrom(r, AsFlags(w), Blank) && PaddedFrom(e, w, false) && |e| == |r|
    ensures forall k :: 0 <= k < |r| ==> Truthy(r[k]) == e[k]
    ensures forall k :: 0 <= k < |r| ==>
      r[k] == if k < |w| then Bool(w[k]) else if w == [] then Blank else Bool(w[|w| - 1])
  {
  }

  /** Once the `text` list is non-empty, an input given as a scalar holds that
      value for every item, and so does a scalar `text` itself. */
  lemma {:induction false} ScalarInputsRepeat(raw: Inputs)
    requires |WrapText(raw.text)| > 0
    ensures var b := Normalize(raw);
      (raw.text.Scalar? ==> forall k :: 0 <= k < |b.text| ==> b.text[k] == raw.text.value)
      && (raw.file.Scalar? ==> forall k :: 0 <= k < |b.file| ==> b.file[k] == raw.file.value)
      && (raw.enableReplacement.Scalar? ==>
            forall k :: 0 <= k < |b.enableReplacement| ==> b.enableReplacement[k] == raw.enableReplacement.value)
      && (raw.imageStyle.Scalar? ==> forall k :: 0 <= k < |b.imageStyle| ==> b.imageStyle[k] == raw.imageStyle.value)
      && (raw.genderAgeReplacement.Scalar? ==>
            forall k :: 0 <= k < |b.genderAgeReplacement| ==> b.genderAgeReplacement[k] == raw.genderAgeReplacement.value)
      && (raw.loraTrigger.Scalar? ==> forall k :: 0 <= k < |b.loraTrigger| ==> b.loraTrigger[k] == raw.loraTrigger.value)
      && (raw.negativePromptText.Scalar? ==>
            forall k :: 0 <= k < |b.negativePromptText| ==> b.negativePromptText[k] == raw.negativePromptText.value)
  {
    var b := Normalize(raw);
    var n := |WrapText(raw.text)|;
    if raw.text.Scalar? { PaddedConstant(b.text, WrapText(raw.text), raw.text.value, ""); }
    if raw.file.Scalar? { PaddedConstant(b.file, WrapOther(raw.file, n), raw.file.value, ""); }
    if raw.enableReplacement.Scalar? {
      PaddedConstant(b.enableReplacement, WrapOther(raw.enableReplacement, n), raw.enableReplacement.value, false);
    }
    if raw.imageStyle.Scalar? { PaddedConstant(b.imageStyle, WrapOther(raw.imageStyle, n), raw.imageStyle.value, ""); }
    if raw.genderAgeReplacement.Scalar? {
      PaddedConstant(b.genderAgeReplacement, WrapOther(raw.genderAgeReplacement, n), raw.genderAgeReplacement.value, "");
    }
    if raw.loraTrigger.Scalar? { PaddedConstant(b.loraTrigger, WrapOther(raw.loraTrigger, n), raw.loraTrigger.value, ""); }
    if raw.negativePromptText.Scalar? {
      PaddedConstant(b.negativePromptText, WrapOther(raw.negativePromptText, n), raw.negativePromptText.value, "");
    }
  }

  /** Padding a non-empty list of copies of `v` gives copies of `v`. */
  lemma PaddedConstant<T>(r: seq<T>, lst: seq<T>, v: T, empty: T)
    requires lst != [] && PaddedFrom(r, lst, empty)
    requires forall k :: 0 <= k < |lst| ==> lst[k] == v
    ensures forall k :: 0 <= k < |r| ==> r[k] == v
  {
    forall k | 0 <= k < |r| ensures r[k] == v {
      if k >= |lst| { assert lst[|lst| - 1] == v; }
    }
  }

  /** An empty `text` list makes every scalar input an empty list too, so when
      no other input is a non-empty list the batch has no items. */
  lemma EmptyTextEmptyBatch(raw: Inputs)
    requires raw.text == List([])
    requires !raw.file.List? || raw.file.items == []
    requires !raw.enableReplacement.List? || raw.enableReplacement.items == []
    requires !raw.imageStyle.List? || raw.imageStyle.items == []
    requires !raw.genderAgeReplacement.List? || raw.genderAgeReplacement.items == []
    requires !raw.loraTrigger.List? || raw.loraTrigger.items == []
    requires !raw.negativePromptText.List? || raw.negativePromptText.items == []
    ensures Normalize(raw).text == []
  {
  }
}
