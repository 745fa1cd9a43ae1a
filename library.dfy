/**
 * The libraries and runtime behaviour the server calls but does not define:
 * the Porter stemmer, encoding/json, the PNG to JPEG conversion, base64,
 * Go's map iteration order and SQLite FTS4 matching. The model takes them as
 * functions so that every property proved holds for whatever they compute.
 */
module Library {
  import opened Wrappers
  import opened Metadata

  datatype Externals = Externals(
    /** porterstemmer.StemString */
    stem: string -> string,
    /** json.Unmarshal into an OriginalMeta */
    decodeOriginal: string -> Option<OriginalMeta>,
    /** json.Unmarshal into a Meta */
    decodeMeta: string -> Option<Meta>,
    /** json.Marshal of a Meta */
    encodeMeta: Meta -> string,
    /** pngFileToJpeg on a file's bytes; None when the PNG does not decode */
    pngToJpeg: string -> Option<string>,
    /** base64.StdEncoding.EncodeToString */
    base64: string -> string,
    /** the order a `range` loop visits a map in */
    keyOrder: map<string, string> -> seq<string>,
    /**
     * whether an FTS4 row (packageId, title text, author text) matches a
     * MATCH expression; MATCH searches every column, the id included
     */
    matches: (string, int, string, string) -> bool)

  /** What the Go runtime guarantees about map iteration: every key exactly once. */
  ghost predicate ValidExternals(ext: Externals)
  {
    forall m :: Enumerates(ext.keyOrder(m), m)
  }
}
