/** The fragment of JavaScript regular expressions that the bot's path patterns use,
    anchored at both ends (`^...$`, no flags): a pattern is a sequence of elements,
    and a text matches when it can be cut into consecutive pieces, one per element. */
module Pattern {
  import opened Text

  datatype Element =
    | Lit(text: string)          // the characters themselves (`content\/`, `\.yml`)
    | Digits                     // `[0-9]+`
    | Optional(text: string)     // `(?:\/index)?`
    | AnyChar                    // `.`: one character other than a line terminator
    | AnyRun                     // `.*`: any run of characters other than line terminators

  predicate NoLineTerminator(s: string) {
    forall i :: 0 <= i < |s| ==> !IsLineTerminator(s[i])
  }

  /** `^p$` matches `s`. */
  predicate Matches(p: seq<Element>, s: string)
    decreases |p|
  {
    if p == [] then s == []
    else match p[0]
      case Lit(w) => StartsWith(s, w) && Matches(p[1..], s[|w|..])
      case Digits => exists j :: 1 <= j <= |s| && AllDigits(s[..j]) && Matches(p[1..], s[j..])
      case Optional(w) => (StartsWith(s, w) && Matches(p[1..], s[|w|..])) || Matches(p[1..], s)
      case AnyChar => s != [] && !IsLineTerminator(s[0]) && Matches(p[1..], s[1..])
      case AnyRun => exists j :: 0 <= j <= |s| && NoLineTerminator(s[..j]) && Matches(p[1..], s[j..])
  }
}
