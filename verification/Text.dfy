/** What the string-handling modules share: option values, NUL, and the C locale's letter case. */
module Text {

  datatype Option<+T> = None | Some(value: T)

  const NUL := '\0'

  function ToUpper(c: char): char
  {
    if 'a' <= c <= 'z' then c - 'a' + 'A' else c
  }

  function ToLower(c: char): char
  {
    if 'A' <= c <= 'Z' then c - 'A' + 'a' else c
  }

  const SMALL := "abcdefghijklmnopqrstuvwxyz"
  const CAPITAL := "ABCDEFGHIJKLMNOPQRSTUVWXYZ"

  lemma InSmall(c: char)
    ensures c in SMALL <==> 'a' <= c <= 'z'
  {
    if 'a' <= c <= 'z' {
      assert SMALL[c as int - 'a' as int] == c;
    }
  }

  lemma InCapital(c: char)
    ensures c in CAPITAL <==> 'A' <= c <= 'Z'
  {
    if 'A' <= c <= 'Z' {
      assert CAPITAL[c as int - 'A' as int] == c;
    }
  }

  const DIGITS := "0123456789"

  lemma InDigits(c: char)
    ensures c in DIGITS <==> '0' <= c <= '9'
  {
    if '0' <= c <= '9' {
      assert DIGITS[c as int - '0' as int] == c;
    }
  }

  lemma LetterAt(v: nat)
    requires v < 26
    ensures SMALL[v] == 'a' + v as char && CAPITAL[v] == 'A' + v as char
  {
  }

  /** The twenty-six letters change case, and nothing else does. */
  lemma Cases(v: nat, c: char)
    requires v < 26
    ensures ToUpper(SMALL[v]) == ToUpper(CAPITAL[v]) == CAPITAL[v]
    ensures ToLower(SMALL[v]) == ToLower(CAPITAL[v]) == SMALL[v]
    ensures c !in SMALL ==> ToUpper(c) == c
    ensures c !in CAPITAL ==> ToLower(c) == c
  {
    InSmall(c);
    InCapital(c);
    LetterAt(v);
  }
}
