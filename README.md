# GreetingMessage greeting builder, in Dafny

This project models `GreetingMessage.buildGreetingMessage`, a Java method that turns
an array of names into one greeting line. A null or empty array gives `"Hello!"`.
Otherwise a `StringBuilder` starts with `"Hello"`. Each name is HTML-encoded with the
OWASP encoder (`Encode.forHtml`) and appended. From the second name on, `", "` is
appended before the name. A final `"!"` closes the text. There is no space after
`"Hello"`, so `["Alice"]` gives `"Hello" + encode("Alice") + "!"`.

Files:
- `wrappers.dfy`: `Option`, used for a Java reference that may be null.
- `strings.dfy`: joining strings with a separator (`Join`), and its reference
  description as an interleaving of parts and separators (`Pieces`, `Concat`).
- `greeting_message.dfy`: the specification `Greeting`, the imperative
  `BuildGreetingMessage` proved equal to it, and the properties of the greeting.

Modelling choices:
- The Java array is an `array?<string>`; `null` is Java's null.
- The `StringBuilder` is a local `string` that each append reassigns.
- The encoder is a parameter `encode: string -> string`. Nothing is assumed about it:
  every property holds for any encoder. Properties about markup take what the
  encoder guarantees as a precondition.

## Model

| member | source | states |
|---|---|---|
| `GreetingMessage.BuildGreetingMessage` | GreetingMessage.java:6-26 | The loop that appends encoded names, with `", "` before every name after the first, returns exactly `Greeting(encode, names)`. The loop keeps the builder equal to `"Hello"` followed by the join of the names encoded so far. A null array and an empty array take the early return. |
| `GreetingMessage.Greeting` | GreetingMessage.java:8-24 | On every path, including the early return, the greeting starts with `"Hello"` and ends with `"!"`. |
| `GreetingMessage.NullAndEmptyAgree` | GreetingMessage.java:8-10 | A null array and an empty array both give `"Hello!"`. This equals `"Hello"` plus the join of no names plus `"!"`, so the early return agrees with the builder path. |
| `GreetingMessage.SingleName` | GreetingMessage.java:12-24 | A single name comes right after `"Hello"` with no space: `"Hello" + encode(name) + "!"`. |
| `GreetingMessage.GreetingStructure` | GreetingMessage.java:12-24 | For n ≥ 1 names, the greeting is `"Hello"`, then 2n-1 pieces, then `"!"`. Piece 2i is `encode(names[i])`, so names are encoded and kept in array order. Each of the n-1 odd pieces is `", "`, so there is no leading or trailing separator. |
| `GreetingMessage.GreetingLength` | GreetingMessage.java:9-24 | The length is 6 for a null or empty array. Otherwise it is 6, plus the encoded names' lengths, plus 2·(n-1). |
| `GreetingMessage.GreetingChars` | GreetingMessage.java:14-24 | A character is in the greeting exactly when it is in `"Hello"`, in `"!"`, in `", "` (for at least two names), or in some encoded name. No character comes from a raw name. |
| `GreetingMessage.NoInjectedChar` | GreetingMessage.java:15-24 | Take a character absent from `"Hello"`, `", "` and `"!"`. If the encoder never produces it for the given names, the greeting never contains it. This holds on every path. |
| `GreetingMessage.NoTagOpener` | GreetingMessage.java:15-16 | If the encoder never outputs `'<'`, no greeting contains `'<'`. This is the protection against cross-site scripting that the encoding is there for. |
| `Strings.JoinSnoc` | GreetingMessage.java:18-21 | One more part extends a join by the part alone when it is the first, and otherwise by the separator and the part. This is the effect of one loop iteration. |
| `Strings.JoinIsInterleaving` | GreetingMessage.java:14-22 | Joining n ≥ 1 parts gives the concatenation of the interleaving p0, separator, p1, …, p(n-1), built independently of the join. |
| `Strings.PiecesShape` | GreetingMessage.java:18-21 | The interleaving of n ≥ 1 parts has 2n-1 pieces. The parts sit at even positions in order, and the separator at the n-1 odd positions. |
| `Strings.JoinLength` | GreetingMessage.java:14-22 | A join of n ≥ 1 parts has the parts' total length plus (n-1) times the separator's length. |
| `Strings.JoinChars` | GreetingMessage.java:14-22 | A character is in a join exactly when it is in some part, or it is in the separator and at least two parts are joined. |

## Left out

- `GreetingMessage.main` (GreetingMessage.java:28-34): console output only.
- The body of the OWASP HTML encoder: it is a foreign library, so the model takes it as an arbitrary function parameter and asserts no escaping table.
- Null elements inside the array: a Dafny `string` is never null, so how the encoder treats a null name is not modelled.
- The `StringBuilder` buffer's capacity and growth, and the performance notes that go with it: not functional behaviour.
- Java strings are UTF-16 code-unit sequences; here they are `seq<char>`, and no encoding detail is modelled.
- UserProfileServlet.java is not part of this model. It is database and servlet I/O around an external store, and its final read loop writes stored values without encoding.
