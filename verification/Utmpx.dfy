/** Login records, as the accounting programs read them. */
module Utmpx {

  /** ut_type; Invalid stands for a value outside EMPTY .. UTMAXTYPE. */
  datatype Kind =
    | Empty | RunLvl | BootTime | OldTime | NewTime
    | InitProcess | LoginProcess | UserProcess | DeadProcess | Accounting
    | Invalid

  datatype Rec = Rec(line: string, name: string, kind: Kind, time: int)

  /** A character that user names may contain. */
  predicate IsNameChar(c: char) {
    || '0' <= c <= '9' || 'A' <= c <= 'Z' || 'a' <= c <= 'z'
    || c in ['$', ' ', '.', '_', '-']
  }

  /** The codes of portable characters: letters, digits, and five others. */
  predicate IsPortable(n: int) {
    97 <= n <= 122 || 65 <= n <= 90 || 48 <= n <= 57 || n in {32, 36, 45, 46, 95}
  }

  lemma {:induction false} NameCharExactly(c: char)
    ensures IsNameChar(c) <==> IsPortable(c as int)
  {}
}
