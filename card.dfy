/** The card types of src/card.rs. */
module Cards {
  import opened StrLib

  /** `CardContent`: a closed sum with exactly two shapes. */
  datatype CardContent =
    | Basic(question: string, answer: string)
    | Cloze(text: string, start: nat, end: nat)

  /** `CardType`: the tag of a `CardContent`. */
  datatype CardType = BasicType | ClozeType

  /**
   * `Card`. `fileCardRange` is the half-open line range `[start, end)` of the
   * segment the card came from; `cardHash` is the digest of that segment.
   */
  datatype Card = Card(
    filePath: string,
    fileCardRange: (nat, nat),
    content: CardContent,
    cardHash: string)

  function TypeOf(content: CardContent): (t: CardType)
    ensures t == BasicType <==> content.Basic?
    ensures t == ClozeType <==> content.Cloze?
  {
    match content
    case Basic(_, _) => BasicType
    case Cloze(_, _, _) => ClozeType
  }

  /** Non-empty, with no whitespace at either end. */
  predicate IsTrimmedText(s: string) {
    s != [] && !IsWhitespace(s[0]) && !IsWhitespace(s[|s| - 1])
  }

  /**
   * What the extractor guarantees of every card it builds: a Basic card has a
   * trimmed, non-empty question and answer; a Cloze card's span starts at a
   * `[` and ends at a later `]`.
   */
  ghost predicate WellFormedContent(content: CardContent) {
    match content
    case Basic(q, a) => IsTrimmedText(q) && IsTrimmedText(a)
    case Cloze(text, s, e) => s < e && CharAtByte(text, s, '[') && CharAtByte(text, e, ']')
  }
}
