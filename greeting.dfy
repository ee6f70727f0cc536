/** The greeting formatter: a pure, total function from a name and a
    language tag to a greeting. */
module Greeting {

  /** The protobuf Language enum: the two values the formatter knows, and any
      other wire value, which it does not. */
  datatype Language = English | Japanese | Other(code: int)

  /** The text of the chosen format string before and after its %s. */
  function Opening(lang: Language): string
  {
    if lang == Japanese then "こんにちは、" else "Hello, "
  }

  function Closing(lang: Language): string
  {
    if lang == Japanese then "！" else "!"
  }

  /** sayHello: picks the format string for lang (English for any language it
      does not recognise) and puts name in its slot. */
  function SayHello(name: string, lang: Language): string
  {
    match lang
    case English => "Hello, " + name + "!"
    case Japanese => "こんにちは、" + name + "！"
    case Other(_) => "Hello, " + name + "!"
  }

  /** Every greeting is the opening text of lang's format, the name, and the
      closing text; the name can always be read back from between them. */
  lemma SayHelloShape(name: string, lang: Language)
    ensures var greeting := SayHello(name, lang);
            && |greeting| == |Opening(lang)| + |name| + |Closing(lang)|
            && greeting[..|Opening(lang)|] == Opening(lang)
            && greeting[|Opening(lang)|..|greeting| - |Closing(lang)|] == name
            && greeting[|greeting| - |Closing(lang)|..] == Closing(lang)
  {
  }

  /** The three branches of the switch, as literal texts. */
  lemma SayHelloForms(name: string, code: int)
    ensures SayHello(name, English) == "Hello, " + name + "!"
    ensures SayHello(name, Japanese) == "こんにちは、" + name + "！"
    ensures SayHello(name, Other(code)) == SayHello(name, English)
  {
  }

  /** Different names never give the same greeting in one language. */
  lemma SayHelloInjective(a: string, b: string, lang: Language)
    requires SayHello(a, lang) == SayHello(b, lang)
    ensures a == b
  {
    SayHelloShape(a, lang);
    SayHelloShape(b, lang);
  }
}
