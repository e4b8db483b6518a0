/** The query AST (ferret-core/src/query.rs). Texts are the bytes of the source's UTF-8 strings. */
module Query {
  import opened Base

  datatype Language = Language(code: u16)

  datatype Query =
    | Literal(text: bytes, caseSensitive: bool)
    | Regex(pattern: bytes, caseSensitive: bool)
    | Phrase(text: bytes, caseSensitive: bool)
    | PathFilter(prefix: bytes)
    | LanguageFilter(language: Language)
    | Not(inner: Query)
    | Or(left: Query, right: Query)
    | And(children: seq<Query>)
}
