/**
 * The two shapes of a sticker package's productInfo.meta (update.go:100-112):
 * the one the LINE store publishes, whose sticker list holds JSON objects, and
 * the one this server stores and serves, whose sticker list holds plain ids.
 * JSON text itself belongs to the encoding/json library and is abstracted by
 * the decode and encode functions that callers pass in.
 */
module Metadata {
  import opened Wrappers

  /** OriginalMeta: the upstream record; each sticker is an object of int64 fields. */
  datatype OriginalMeta = OriginalMeta(
    packageId: int,
    title: map<string, string>,
    author: map<string, string>,
    stickers: seq<map<string, int>>)

  /** Meta: the stored record; each sticker is its id. */
  datatype Meta = Meta(
    packageId: int,
    title: map<string, string>,
    author: map<string, string>,
    stickers: seq<int>)

  /** `sticker["id"]` on a Go map: the zero value when the key is absent. */
  function StickerId(sticker: map<string, int>): int
  {
    if "id" in sticker then sticker["id"] else 0
  }

  /** The loop of changeMeta: one id per sticker object, in order. */
  method FlattenStickers(stickers: seq<map<string, int>>) returns (ids: seq<int>)
    ensures |ids| == |stickers|
    ensures forall i :: 0 <= i < |ids| ==> ids[i] == StickerId(stickers[i])
  {
    ids := [];
    var i := 0;
    while i < |stickers|
      invariant 0 <= i <= |stickers|
      invariant |ids| == i
      invariant forall j :: 0 <= j < i ==> ids[j] == StickerId(stickers[j])
    {
      ids := ids + [StickerId(stickers[i])];
      i := i + 1;
    }
  }

  /** The record changeMeta builds: identity, title and author copied, stickers reduced to their ids. */
  function Reshaped(om: OriginalMeta): Meta
  {
    Meta(om.packageId, om.title, om.author,
         seq(|om.stickers|, i requires 0 <= i < |om.stickers| => StickerId(om.stickers[i])))
  }

  /** The upstream form of a stored record: each id wrapped in an object with one "id" field. */
  function Embedded(m: Meta): (om: OriginalMeta)
    ensures |om.stickers| == |m.stickers|
    ensures forall i :: 0 <= i < |om.stickers| ==> om.stickers[i] == map["id" := m.stickers[i]]
  {
    OriginalMeta(m.packageId, m.title, m.author,
                 seq(|m.stickers|, i requires 0 <= i < |m.stickers| => map["id" := m.stickers[i]]))
  }

  /** Reshaping is a left inverse of embedding: no stored record is changed by a round trip through the upstream shape. */
  lemma ReshapedEmbedded(m: Meta)
    ensures Reshaped(Embedded(m)) == m
  {
    var r := Reshaped(Embedded(m));
    assert forall i :: 0 <= i < |m.stickers| ==> r.stickers[i] == m.stickers[i];
  }

  /** Reshaping keeps everything but the sticker objects' other fields: two upstream records with the same ids reshape alike. */
  lemma {:induction false} ReshapedDependsOnIdsOnly(a: OriginalMeta, b: OriginalMeta)
    requires a.packageId == b.packageId && a.title == b.title && a.author == b.author
    requires |a.stickers| == |b.stickers|
    requires forall i :: 0 <= i < |a.stickers| ==> StickerId(a.stickers[i]) == StickerId(b.stickers[i])
    ensures Reshaped(a) == Reshaped(b)
  {
    assert Reshaped(a).stickers == Reshaped(b).stickers;
  }

  /**
   * changeMeta: decode the upstream text, reshape it and encode the result.
   * Decoding fails on text that is not an OriginalMeta; json.Marshal of a Meta
   * cannot fail.
   */
  method ChangeMeta(decode: string -> Option<OriginalMeta>, encode: Meta -> string, text: string)
    returns (r: Option<string>)
    ensures r.None? <==> decode(text).None?
    ensures r.Some? ==> r.value == encode(Reshaped(decode(text).value))
  {
    var origin := decode(text);
    if origin.None? {
      return None;
    }
    var om := origin.value;
    var ids := FlattenStickers(om.stickers);
    var meta := Meta(om.packageId, om.title, om.author, ids);
    assert meta == Reshaped(om);
    r := Some(encode(meta));
  }

  /** `keys` lists each key of `m` exactly once: one possible iteration order of a Go map. */
  predicate Enumerates(keys: seq<string>, m: map<string, string>)
  {
    && |keys| == |m|
    && (forall i :: 0 <= i < |keys| ==> keys[i] in m)
    && (forall i, j :: 0 <= i < j < |keys| ==> keys[i] != keys[j])
  }

  /** The values of `m` written one after another in the order `keys`. */
  function Concatenation(m: map<string, string>, keys: seq<string>): string
    requires forall i :: 0 <= i < |keys| ==> keys[i] in m
  {
    if keys == [] then ""
    else Concatenation(m, keys[..|keys| - 1]) + m[keys[|keys| - 1]]
  }

  /**
   * The buffer loops of insert: every value of the map written into one
   * buffer in iteration order.
   */
  method ConcatValues(m: map<string, string>, keys: seq<string>) returns (text: string)
    requires Enumerates(keys, m)
    ensures text == Concatenation(m, keys)
  {
    text := "";
    var i := 0;
    while i < |keys|
      invariant 0 <= i <= |keys|
      invariant text == Concatenation(m, keys[..i])
    {
      assert keys[..i + 1][..i] == keys[..i];
      text := text + m[keys[i]];
      i := i + 1;
    }
    assert keys[..|keys|] == keys;
  }

  /** A map with one entry has one iteration order, so its buffer holds exactly that entry's value. */
  lemma ConcatenationOfSingleEntry(key: string, value: string, keys: seq<string>)
    requires Enumerates(keys, map[key := value])
    ensures Concatenation(map[key := value], keys) == value
  {
    assert |keys| == 1;
    assert keys[..0] == [];
  }

  /** Every value of the map appears in its concatenation, right after the values of the keys before it. */
  lemma {:induction false} ConcatenationHoldsValue(m: map<string, string>, keys: seq<string>, k: nat)
    requires forall i :: 0 <= i < |keys| ==> keys[i] in m
    requires k < |keys|
    ensures Concatenation(m, keys[..k]) + m[keys[k]] <= Concatenation(m, keys)
    decreases |keys|
  {
    var init := keys[..|keys| - 1];
    if k == |keys| - 1 {
      assert keys[..k] == init;
    } else {
      ConcatenationHoldsValue(m, init, k);
      assert init[..k] == keys[..k];
    }
  }
}
