/** The metadata dictionaries that travel with vectors and retrieval results. */
module Metadata {

  /** The values the core stores in metadata: strings and integers. */
  datatype MetaValue = Str(str: string) | Int(num: int)

  /** A metadata dictionary; its key order is never observed by the core. */
  type Meta = map<string, MetaValue>

  /** `m.get(key, default)`. */
  function Get(m: Meta, key: string, default: MetaValue): MetaValue
  {
    if key in m then m[key] else default
  }

  /** The metadata carries its passage text under `'text'`, as a string. */
  predicate HasText(m: Meta)
  {
    "text" in m && m["text"].Str?
  }

  function TextOf(m: Meta): string
    requires HasText(m)
  {
    m["text"].str
  }
}
