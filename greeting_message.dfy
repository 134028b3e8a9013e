/**
 * The greeting builder of class GreetingMessage: a fixed "Hello", the names of an
 * array joined by ", " after each has been HTML-encoded, and a closing "!".
 *
 * The HTML encoder (OWASP `Encode.forHtml`) is a foreign library; it is passed in as
 * an arbitrary function `encode`, and nothing is assumed about what it does.
 */
module GreetingMessage {
  import opened Wrappers
  import opened Strings

  /** The text the builder starts with; note there is no space after it. */
  const Prefix: string := "Hello"
  /** Written before every name except the first. */
  const Separator: string := ", "
  /** Written after the last name. */
  const Suffix: string := "!"
  /** Returned at once for a null or empty array. */
  const EmptyGreeting: string := "Hello!"

  /** The Java array as a value: `None` for a null reference, else its elements. */
  function Contents(names: array?<string>): Option<seq<string>>
    reads names
  {
    if names == null then None else Some(names[..])
  }

  /** Every name passed through the encoder, in array order. */
  function Encoded(encode: string -> string, names: seq<string>): seq<string>
  {
    seq(|names|, i requires 0 <= i < |names| => encode(names[i]))
  }

  /** The greeting for `names`: the specification of BuildGreetingMessage. Whatever
      the input, it starts with "Hello" and ends with "!". */
  function Greeting(encode: string -> string, names: Option<seq<string>>): (r: string)
    ensures |r| >= |Prefix| + |Suffix|
    ensures r[..|Prefix|] == Prefix && r[|r| - |Suffix|..] == Suffix
  {
    if names.None? || |names.value| == 0 then EmptyGreeting
    else Prefix + Join(Separator, Encoded(encode, names.value)) + Suffix
  }

  /** buildGreetingMessage: a builder is started with "Hello", each name is encoded and
      appended, preceded by ", " from the second name on, and "!" closes the text. */
  method BuildGreetingMessage(encode: string -> string, names: array?<string>) returns (greeting: string)
    ensures greeting == Greeting(encode, Contents(names))
  {
    if names == null || names.Length == 0 {
      return EmptyGreeting;
    }
    var builder := Prefix;
    for i := 0 to names.Length
      invariant builder == Prefix + Join(Separator, Encoded(encode, names[..i]))
    {
      var sanitizedName := encode(names[i]);
      if i > 0 {
        builder := builder + Separator;
      }
      builder := builder + sanitizedName;
      assert Encoded(encode, names[..i + 1]) == Encoded(encode, names[..i]) + [sanitizedName];
      JoinSnoc(Separator, Encoded(encode, names[..i]), sanitizedName);
    }
    builder := builder + Suffix;
    assert names[..names.Length] == names[..];
    greeting := builder;
  }

  /** The early return for a null or empty array gives what the loop would build from
      no names at all, so a null array and an empty one greet alike. */
  lemma NullAndEmptyAgree(encode: string -> string)
    ensures Greeting(encode, None) == Greeting(encode, Some([])) == EmptyGreeting
    ensures EmptyGreeting == Prefix + Join(Separator, []) + Suffix
  {
  }

  /** A single name follows "Hello" directly, with no space in between. */
  lemma SingleName(encode: string -> string, name: string)
    ensures Greeting(encode, Some([name])) == Prefix + encode(name) + Suffix
  {
  }

  /** For a non-empty array the greeting is "Hello", then the encoded names in array
      order with ", " between consecutive ones (n-1 separators, none leading or
      trailing), then "!". */
  lemma GreetingStructure(encode: string -> string, names: seq<string>)
    requires |names| >= 1
    ensures |Pieces(Separator, Encoded(encode, names))| == 2 * |names| - 1
    ensures forall i :: 0 <= i < |names| ==> Pieces(Separator, Encoded(encode, names))[2 * i] == encode(names[i])
    ensures forall i :: 0 <= i < |names| - 1 ==> Pieces(Separator, Encoded(encode, names))[2 * i + 1] == Separator
    ensures Greeting(encode, Some(names)) == Prefix + Concat(Pieces(Separator, Encoded(encode, names))) + Suffix
  {
    PiecesShape(Separator, Encoded(encode, names));
    JoinIsInterleaving(Separator, Encoded(encode, names));
  }

  /** Length: 6 for the null or empty case, else 6 plus the encoded names' lengths plus
      two characters for each of the n-1 separators. */
  lemma GreetingLength(encode: string -> string, names: Option<seq<string>>)
    ensures |Greeting(encode, names)| ==
              if names.None? || |names.value| == 0 then 6
              else 6 + SumLengths(Encoded(encode, names.value)) + 2 * (|names.value| - 1)
  {
    if names.Some? && |names.value| > 0 {
      JoinLength(Separator, Encoded(encode, names.value));
    }
  }

  /** Every character of a greeting comes from the literals or from an encoded name;
      none comes from a raw name. */
  lemma GreetingChars(encode: string -> string, names: seq<string>, c: char)
    requires |names| >= 1
    ensures c in Greeting(encode, Some(names)) <==>
              c in Prefix || c in Suffix || (|names| >= 2 && c in Separator) ||
              exists i :: 0 <= i < |names| && c in encode(names[i])
  {
    var parts := Encoded(encode, names);
    JoinChars(Separator, parts, c);
    if exists i :: 0 <= i < |names| && c in encode(names[i]) {
      var i :| 0 <= i < |names| && c in encode(names[i]);
      assert c in parts[i];
    }
  }

  /** If the encoder never produces a character that the literals "Hello", ", " and
      "!" lack (such as '<'), the greeting never contains it: markup in a name reaches
      the output only through the encoder. */
  lemma NoInjectedChar(encode: string -> string, names: Option<seq<string>>, c: char)
    requires c !in Prefix && c !in Separator && c !in Suffix
    requires names.Some? ==> forall i :: 0 <= i < |names.value| ==> c !in encode(names.value[i])
    ensures c !in Greeting(encode, names)
  {
    if names.Some? && |names.value| >= 1 {
      GreetingChars(encode, names.value, c);
    }
  }

  /** The angle bracket that opens a tag is one such character. */
  lemma NoTagOpener(encode: string -> string, names: Option<seq<string>>)
    requires forall s :: '<' !in encode(s)
    ensures '<' !in Greeting(encode, names)
  {
    NoInjectedChar(encode, names, '<');
  }
}
