/** Names, attributes and tokens of the XML encoder and decoder. */
module XmlTypes {
  import opened Utf8

  /** A Go string: any bytes, whether they are UTF-8 or not. */
  type Str = seq<Byte>

  datatype Name = Name(space: Str, local: Str)

  datatype Attr = Attr(name: Name, value: Str)

  /** What is between the tags. */
  datatype Data =
    | CharData(text: Str)
    | Comment(text: Str)
    | ProcInst(target: Str, inst: Str)
    | Directive(text: Str)

  /** In what the encoder is given and the decoder returns, spaces of names are name space URLs;
      in what is written and read, they are prefixes. */
  datatype Token =
    | Start(name: Name, attrs: seq<Attr>)
    | End(name: Name)
    | Other(data: Data)

  const COLON: Byte := 0x3A
  const SLASH: Byte := 0x2F
  const UNDERSCORE: Byte := 0x5F

  /** xmlns, and xml. */
  const XMLNS: Str := [0x78, 0x6D, 0x6C, 0x6E, 0x73]
  const XML: Str := [0x78, 0x6D, 0x6C]
  const XML_URL: Str := Bytes("http://www.w3.org/XML/1998/namespace")

  /** Name.isNamespace. */
  predicate IsNamespace(n: Name) {
    n.local == XMLNS || n.space == XMLNS
  }

  /** A map lookup in Go: missing keys read as the empty string. */
  function Get(m: map<Str, Str>, k: Str): Str {
    if k in m then m[k] else []
  }

  predicate HasPrefix(s: Str, p: Str) {
    p <= s
  }

  lemma XmlUrl()
    ensures XML_URL != [] && COLON in XML_URL && XML_URL[0] == 0x68 && forall i | 0 <= i < |XML_URL| :: 0x20 <= XML_URL[i] < 0x80
  {
    assert XML_URL[4] == COLON;
  }
}
