/**
 * The values that flow between the script and the tool window: Roslyn
 * syntax nodes and tokens located in a document, and the .NET objects a
 * script may return.
 */
module Syntax {
  import opened Wrappers

  /** Identity of a document of the solution (Roslyn's DocumentId). */
  type DocumentId = nat

  /** Where a node or token sits: the document its tree belongs to and its span `[start, start + length)`. */
  datatype Located = Located(document: DocumentId, start: nat, length: nat)

  /** Roslyn's `SyntaxNodeOrToken`: a wrapper holding either a node or a token. */
  datatype SyntaxNodeOrToken = NodeOf(node: Located) | TokenOf(token: Located) {
    function Site(): Located {
      if NodeOf? then node else token
    }
    function Document(): DocumentId { Site().document }
    function Start(): nat { Site().start }
    function End(): nat { Site().start + Site().length }
  }

  /**
   * A .NET object as seen through `object`: null, a syntax node, a syntax
   * token, a boxed `SyntaxNodeOrToken`, a string, a character, an enumerable
   * that yields `items` and then either ends or throws `fault`, or any other
   * value.
   */
  datatype Obj =
    | Null
    | SyntaxNode(node: Located)
    | SyntaxToken(token: Located)
    | Boxed(value: SyntaxNodeOrToken)
    | Str(chars: string)
    | Char(c: char)
    | Enumerable(items: seq<Obj>, fault: Option<string>)
    | Other(description: string)
}
