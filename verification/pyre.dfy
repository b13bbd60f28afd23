/**
 The pieces of Python's `re` semantics that the commit header patterns use:
 the character classes `\d`, `\s`, `\S`, `.`, `[a-z]`, and the end anchor `$`
 as it behaves without the MULTILINE flag. Classes are taken over ASCII.
 */
module PyRe {

  /** `\d`, restricted to the ASCII digits. */
  predicate IsDigit(c: char) {
    '0' <= c <= '9'
  }

  /** `\s` of a Python 3 `str` pattern, restricted to ASCII: space, tab, newline,
      vertical tab, form feed, carriage return, and the separators 0x1C to 0x1F.
      `\S` is its complement. */
  predicate IsSpace(c: char) {
    c == ' ' || '\t' <= c <= '\r' || '\U{1C}' <= c <= '\U{1F}'
  }

  /** `[a-z]` */
  predicate IsLower(c: char) {
    'a' <= c <= 'z'
  }

  /** `[a-z0-9-]` */
  predicate IsDomainChar(c: char) {
    IsLower(c) || IsDigit(c) || c == '-'
  }

  predicate AllLower(s: string) {
    forall k | 0 <= k < |s| :: IsLower(s[k])
  }

  /** Every character is matched by `.` (no DOTALL): nothing but a newline is excluded. */
  predicate NoNewline(s: string) {
    forall k | 0 <= k < |s| :: s[k] != '\n'
  }

  /** Whether `^R$` accepts `s`, given `body` = the strings `R` matches whole.
      `^` pins the match to the start; `$` matches at the end of the string
      or just before a newline that is the string's last character. */
  predicate DollarMatch(body: string -> bool, s: string): (r: bool)
    ensures body(s) ==> r
    ensures (|s| == 0 || s[|s| - 1] != '\n') ==> (r <==> body(s))
  {
    body(s) || (|s| > 0 && s[|s| - 1] == '\n' && body(s[..|s| - 1]))
  }

  /** On a line without newlines `$` is a plain end-of-string anchor. */
  lemma DollarMatchOnLine(body: string -> bool, s: string)
    requires NoNewline(s)
    ensures DollarMatch(body, s) <==> body(s)
  {
    if |s| > 0 {
      assert s[|s| - 1] != '\n';
    }
  }
}
