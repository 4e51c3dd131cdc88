/**
 The two entry points: text to tree over the caller's buffer, and tree to text.
 */
module JsonApi {
  import opened Prelude
  import opened JsonText
  import opened JsonParse
  import opened JsonGrammar
  import opened JsonDom
  import opened JsonReader
  import opened JsonWriter

  /** Reads a text in place. It succeeds on the texts of the grammar and on no others, and the tree is what the text denoted. */
  method ReadText(buffer: array<Byte>) returns (r: Option<Node>)
    modifies buffer
    ensures r.Some? <==> exists j :: Denotes(old(buffer[..]), j)
    ensures r.Some? ==> Inside(r.value, buffer.Length) && Denotes(old(buffer[..]), Resolve(r.value, buffer[..]))
  {
    hide Denotes, PText, Resolve;
    ghost var text := buffer[..];
    var dom := new Dom();
    var parser := new Parser(buffer, dom);
    var ok := parser.Parse();
    if PText(text).Some? {
      AcceptsExactly(text, PText(text).value);
    }
    forall j | Denotes(text, j)
      ensures PText(text) == Some(j)
    {
      AcceptsExactly(text, j);
    }
    r := if ok then dom.root else None;
  }

  /** Writing a tree and reading the text back, in place, gives the tree. */
  method WriteThenRead(j: Json) returns (buffer: array<Byte>, r: Option<Node>)
    requires Writable(j)
    ensures fresh(buffer) && r.Some? && Inside(r.value, buffer.Length) && Resolve(r.value, buffer[..]) == j
  {
    hide Denotes, Resolve, Inside;
    var text := Stringify(j);
    buffer := new Byte[|text|](i requires 0 <= i < |text| => text[i]);
    assert buffer[..] == text;
    RoundTrip(j);
    AcceptsExactly(text, j);
    r := ReadText(buffer);
    AcceptsExactly(text, Resolve(r.value, buffer[..]));
  }
}
