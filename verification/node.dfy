/** `SaveTextFlorence.write_text`: normalise the batch, answer from the memo
    cache when the batch was seen before, otherwise rewrite every caption,
    append a record per item to its file and remember the result. */
module SaveTextNode {
  import opened Caption
  import opened Normalizer
  import opened Files

  /** The style and gender/age replacements of every item are used literally. */
  predicate LiteralReplacements(b: Batch) {
    (forall k :: 0 <= k < |b.imageStyle| ==> IsLiteral(b.imageStyle[k]))
    && (forall k :: 0 <= k < |b.genderAgeReplacement| ==> IsLiteral(b.genderAgeReplacement[k]))
  }

  predicate LiteralInput(x: Input<string>) {
    match x
    case Scalar(v) => IsLiteral(v)
    case List(xs) => forall k :: 0 <= k < |xs| ==> IsLiteral(xs[k])
  }

  /** Literal replacements in the raw inputs stay literal after padding, the
      padding being copies of an input element or the empty string. */
  lemma NormalizeKeepsLiteral(raw: Inputs)
    requires LiteralInput(raw.imageStyle) && LiteralInput(raw.genderAgeReplacement)
    ensures LiteralReplacements(Normalize(raw))
  {
    var b := Normalize(raw);
    var n := |WrapText(raw.text)|;
    PaddedLiteral(b.imageStyle, WrapOther(raw.imageStyle, n));
    PaddedLiteral(b.genderAgeReplacement, WrapOther(raw.genderAgeReplacement, n));
  }

  lemma PaddedLiteral(r: seq<string>, lst: seq<string>)
    requires PaddedFrom(r, lst, "")
    requires forall k :: 0 <= k < |lst| ==> IsLiteral(lst[k])
    ensures forall k :: 0 <= k < |r| ==> IsLiteral(r[k])
  {
    forall k | 0 <= k < |r| ensures IsLiteral(r[k]) {
      if k >= |lst| && lst != [] { assert IsLiteral(lst[|lst| - 1]); }
    }
  }

  /** The text of item `i` that `write_text` returns: the rewritten caption
      when replacement is enabled for it, the caption itself otherwise. */
  function ItemOutput(b: Batch, i: nat): string
    requires b.WellFormed() && LiteralReplacements(b) && i < |b.text|
  {
    if b.enableReplacement[i] then
      ProcessText(b.text[i], b.imageStyle[i], b.genderAgeReplacement[i], b.loraTrigger[i])
    else b.text[i]
  }

  /** `processed_texts` for a batch: one output per item, in item order. */
  function Processed(b: Batch): (r: seq<string>)
    requires b.WellFormed() && LiteralReplacements(b)
    ensures |r| == |b.text|
    ensures forall i :: 0 <= i < |r| && !b.enableReplacement[i] ==> r[i] == b.text[i]
    ensures forall i :: 0 <= i < |r| && b.enableReplacement[i] ==>
      r[i] == ProcessText(b.text[i], b.imageStyle[i], b.genderAgeReplacement[i], b.loraTrigger[i])
  {
    seq(|b.text|, i requires 0 <= i < |b.text| => ItemOutput(b, i))
  }

  /** The three lines appended for one item. */
  function Record(positive: string, negative: string): string {
    "positive: " + positive + "\n" + "negative: " + negative + "\n" + "---------\n"
  }

  /** The record of every item, in item order. */
  function Records(b: Batch, outputs: seq<string>): (r: seq<string>)
    requires b.WellFormed() && |outputs| == |b.text|
    ensures |r| == |outputs|
    ensures forall i :: 0 <= i < |r| ==> r[i] == Record(outputs[i], b.negativePromptText[i])
  {
    seq(|outputs|, i requires 0 <= i < |outputs| => Record(outputs[i], b.negativePromptText[i]))
  }

  /** What `_get_cache_key` hashes: the seven padded lists. The flag list is
      kept as the source holds it, where `""` padding differs from `False`. */
  datatype Key = Key(batch: Batch, flags: seq<Flag>)

  /** `_get_cache_key`: an MD5 digest of the padded lists serialised as JSON
      with sorted keys. Taken here as injective, the key is those lists. */
  function CacheKey(raw: Inputs): Key {
    Key(Normalize(raw), Flags(raw))
  }

  /** Two calls share a cache entry exactly when their padded lists are equal,
      the flag padding included. */
  lemma CacheKeyInjective(raw1: Inputs, raw2: Inputs)
    ensures CacheKey(raw1) == CacheKey(raw2) <==> Normalize(raw1) == Normalize(raw2) && Flags(raw1) == Flags(raw2)
  {
  }

  /** An empty flag list padded with `""` and an explicit `[False]` give the
      same batch but different keys, so the second call is processed again. */
  lemma BlankPaddingKeyedApart(raw: Inputs)
    requires raw.enableReplacement == List([]) && MaxLength(raw) > 0
    ensures var raw2 := raw.(enableReplacement := List([false]));
      Normalize(raw2) == Normalize(raw) && CacheKey(raw2) != CacheKey(raw)
  {
    var raw2 := raw.(enableReplacement := List([false]));
    assert WrappedLengths(raw2) == WrappedLengths(raw)[2 := 1];
    assert MaxLength(raw2) == MaxLength(raw);
    assert Normalize(raw2).enableReplacement == Normalize(raw).enableReplacement;
    assert Flags(raw2)[0] == Bool(false) && Flags(raw)[0] == Blank;
  }

  /** The node. `cache` is the class-level `_cache` dictionary, shared by all
      instances: one object of this class stands for that shared state. */
  class SaveTextFlorence {
    var cache: map<Key, seq<string>>

    /** Every cached result is what processing its batch yields. */
    ghost predicate Valid()
      reads this
    {
      forall key :: key in cache ==>
        key.batch.WellFormed() && LiteralReplacements(key.batch) && cache[key] == Processed(key.batch)
    }

    /** The cache is empty when the process starts. */
    constructor ()
      ensures Valid() && cache == map[]
    {
      cache := map[];
    }

    /** `write_text`. `written[i]` tells whether the append for item `i`
        succeeded; failures are swallowed and change nothing but that file. */
    method WriteText(fs: FileStore, raw: Inputs) returns (result: seq<string>, ghost written: seq<bool>)
      requires Valid()
      requires LiteralInput(raw.imageStyle) && LiteralInput(raw.genderAgeReplacement)
      modifies this, fs
      ensures Valid()
      ensures LiteralReplacements(Normalize(raw))
      ensures result == Processed(Normalize(raw))
      ensures CacheKey(raw) in old(cache) ==>
        cache == old(cache) && fs.files == old(fs.files)
      ensures CacheKey(raw) !in old(cache) ==>
        cache == old(cache)[CacheKey(raw) := result]
        && |written| == |result|
        && fs.files == AppendAll(old(fs.files), Normalize(raw).file, Records(Normalize(raw), result), written)
    {
      var b := Normalize(raw);
      NormalizeKeepsLiteral(raw);
      var key := CacheKey(raw);
      if key in cache {
        result := cache[key];
        written := [];
        return;
      }
      var processed;
      processed, written := WriteItems(fs, b);
      cache := cache[key := processed];
      result := processed;
    }
  }

  /** The loop of `write_text` on a cache miss: for each item in order, its
      output is computed and kept, then its record is appended to its file;
      a failed append changes nothing and the loop goes on. */
  method WriteItems(fs: FileStore, b: Batch) returns (processed: seq<string>, ghost written: seq<bool>)
    requires b.WellFormed() && LiteralReplacements(b)
    modifies fs
    ensures processed == Processed(b)
    ensures |written| == |b.text|
    ensures fs.files == AppendAll(old(fs.files), b.file, Records(b, processed), written)
  {
    ghost var records := Records(b, Processed(b));
    processed := [];
    written := [];
    var i := 0;
    while i < |b.text|
      invariant 0 <= i <= |b.text|
      invariant |processed| == i && forall k :: 0 <= k < i ==> processed[k] == ItemOutput(b, k)
      invariant |written| == i
      invariant fs.files == AppendAll(old(fs.files), b.file[..i], records[..i], written)
    {
      var p, ok := WriteItem(fs, b, i);
      AppendAllStep(old(fs.files), b.file, records, written, i, ok);
      processed := processed + [p];
      written := written + [ok];
      i := i + 1;
    }
    assert b.file[..i] == b.file;
    assert records[..i] == records;
  }

  /** One iteration of that loop: the output of item `i`, and the attempt to
      append its record to `file[i]`. */
  method WriteItem(fs: FileStore, b: Batch, i: nat) returns (p: string, ok: bool)
    requires b.WellFormed() && LiteralReplacements(b) && i < |b.text|
    modifies fs
    ensures p == ItemOutput(b, i) && p == Processed(b)[i]
    ensures fs.files == if ok then Appended(old(fs.files), b.file[i], Records(b, Processed(b))[i]) else old(fs.files)
  {
    var current := b.text[i];
    if b.enableReplacement[i] {
      p := ProcessText(current, b.imageStyle[i], b.genderAgeReplacement[i], b.loraTrigger[i]);
    } else {
      p := current;
    }
    ok := fs.Append(b.file[i], Record(p, b.negativePromptText[i]));
  }

  /** Two calls with the same key return the same list, and the second
      answers from the cache without touching any file. */
  method WriteTwice(node: SaveTextFlorence, fs: FileStore, raw1: Inputs, raw2: Inputs)
    returns (first: seq<string>, second: seq<string>,
             ghost filesAfterFirst: map<string, string>, ghost cacheAfterFirst: map<Key, seq<string>>)
    requires node.Valid() && CacheKey(raw1) == CacheKey(raw2)
    requires LiteralInput(raw1.imageStyle) && LiteralInput(raw1.genderAgeReplacement)
    requires LiteralInput(raw2.imageStyle) && LiteralInput(raw2.genderAgeReplacement)
    modifies node, fs
    ensures first == second
    ensures CacheKey(raw2) in node.cache && node.cache[CacheKey(raw2)] == second
    ensures fs.files == filesAfterFirst && node.cache == cacheAfterFirst
  {
    ghost var w;
    first, w := node.WriteText(fs, raw1);
    filesAfterFirst := fs.files;
    cacheAfterFirst := node.cache;
    second, w := node.WriteText(fs, raw2);
  }
}
