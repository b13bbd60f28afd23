/**
 The commit-message header field table of a git hook library: each recognised
 header prefix is bound to an anchored regular expression that the field's
 value must satisfy. How the value is cut from a line is not part of the table. Each regular expression is written here as a predicate in
 the expression's own structure (one conjunct per piece, an existential per
 choice of split point, a recursive predicate per `+` over a group), and the
 lemmas below pin down exactly which lines each predicate accepts.
 */
module Commit {
  import opened PyRe

  // ----------------------------------------------------------------------
  // '<prefix>:'  ->  ^[\s\S]{0,72}$
  // ----------------------------------------------------------------------

  /** `[\s\S]{0,72}`: between zero and 72 characters, each of any kind. */
  predicate PrefixBody(t: string) {
    |t| <= 72
  }

  predicate IsPrefixValue(s: string): (r: bool)
    ensures |s| <= 72 ==> r
    ensures r ==> |s| <= 73
  {
    DollarMatch(PrefixBody, s)
  }

  // ----------------------------------------------------------------------
  // 'REF:'  ->  ^#[\d]{4}$
  // ----------------------------------------------------------------------

  /** `#[\d]{4}`: a hash sign and exactly four digits. */
  predicate RefBody(t: string) {
    |t| == 5 && t[0] == '#' && forall k | 1 <= k < 5 :: IsDigit(t[k])
  }

  predicate IsRefValue(s: string): (r: bool)
    ensures r ==> 5 <= |s| <= 6 && s[0] == '#' && forall k | 1 <= k < 5 :: IsDigit(s[k])
  {
    DollarMatch(RefBody, s)
  }

  // ----------------------------------------------------------------------
  // 'Description:'  ->  ^.{72,}$
  // ----------------------------------------------------------------------

  /** `.{72,}`: at least 72 characters, none of them a newline. */
  predicate DescriptionBody(t: string) {
    |t| >= 72 && NoNewline(t)
  }

  predicate IsDescriptionValue(s: string): (r: bool)
    ensures r ==> |s| >= 72 && s[0] != '\n'
  {
    DollarMatch(DescriptionBody, s)
  }

  // ----------------------------------------------------------------------
  // 'Signed-off-by:'  ->  ^((\S+)(\s){1}){2}(\S+)@([a-z0-9-]+)(\.)([a-z]{2,4})+$
  // ----------------------------------------------------------------------

  /** `\S+` */
  predicate NonSpaceRun(t: string) {
    |t| > 0 && forall k | 0 <= k < |t| :: !IsSpace(t[k])
  }

  /** `(\S+)(\s){1}`: a non-empty token followed by exactly one whitespace character. */
  predicate NameGroup(t: string) {
    |t| >= 2 && NonSpaceRun(t[..|t| - 1]) && IsSpace(t[|t| - 1])
  }

  /** `[a-z0-9-]+` */
  predicate DomainLabel(t: string) {
    |t| > 0 && forall k | 0 <= k < |t| :: IsDomainChar(t[k])
  }

  /** `[a-z]{2,4}` */
  predicate TldChunk(t: string) {
    2 <= |t| <= 4 && AllLower(t)
  }

  /** `([a-z]{2,4})+`: one chunk of two to four lowercase letters, then possibly more chunks. */
  predicate TldRepeat(t: string): (r: bool)
    ensures r ==> |t| >= 2 && IsLower(t[0]) && IsLower(t[|t| - 1])
    decreases |t|
  {
    exists k | 2 <= k <= 4 && k <= |t| :: TldChunk(t[..k]) && (k == |t| || TldRepeat(t[k..]))
  }

  /** The whole sign-off expression matches `t` with the two name groups ending at
      `i` and `j`, the `@` at `p` and the `.` at `q`. */
  predicate SignoffSplit(t: string, i: int, j: int, p: int, q: int) {
    && 0 < i < j < p < q < |t|
    && NameGroup(t[..i])
    && NameGroup(t[i..j])
    && NonSpaceRun(t[j..p])
    && t[p] == '@'
    && DomainLabel(t[p + 1..q])
    && t[q] == '.'
    && TldRepeat(t[q + 1..])
  }

  predicate SignoffBody(t: string) {
    exists i, j, p, q | 0 < i < |t| && i < j < |t| && j < p < |t| && p < q < |t| ::
      SignoffSplit(t, i, j, p, q)
  }

  predicate IsSignoffValue(s: string): (r: bool)
    ensures r ==> '@' in s
  {
    SignoffBodyHasAt(s);
    if |s| > 0 then
      SignoffBodyHasAt(s[..|s| - 1]);
      assert forall c | c in s[..|s| - 1] :: c in s;
      DollarMatch(SignoffBody, s)
    else
      DollarMatch(SignoffBody, s)
  }

  // ----------------------------------------------------------------------
  // The table
  // ----------------------------------------------------------------------

  /** The recognised header prefixes, each bound to the test its value must pass. */
  function HeaderFields(): (table: map<string, string -> bool>)
    ensures table.Keys == {"<prefix>:", "REF:", "Description:", "Signed-off-by:"}
  {
    map[
      "<prefix>:" := IsPrefixValue,
      "REF:" := IsRefValue,
      "Description:" := IsDescriptionValue,
      "Signed-off-by:" := IsSignoffValue
    ]
  }

  /** Exactly four prefixes are recognised, each ends with a colon, and none is a
      leading part of another, so a line starts with at most one of them. */
  lemma HeaderFieldPrefixes()
    ensures HeaderFields().Keys == {"<prefix>:", "REF:", "Description:", "Signed-off-by:"}
    ensures forall key | key in HeaderFields() :: |key| > 0 && key[|key| - 1] == ':'
    ensures forall a, b | a in HeaderFields() && b in HeaderFields() && a != b :: !(a <= b)
  {
    var keys := {"<prefix>:", "REF:", "Description:", "Signed-off-by:"};
    assert HeaderFields().Keys == keys;
    forall a, b | a in keys && b in keys && a != b ensures !(a <= b) {
      assert a[0] != b[0];
    }
  }

  // ----------------------------------------------------------------------
  // What each value test accepts
  // ----------------------------------------------------------------------

  /** A `<prefix>:` value is any text of at most 72 characters; because of `$`,
      73 characters are also accepted when the last one is a newline. */
  lemma PrefixValueLanguage(s: string)
    ensures IsPrefixValue(s) <==> |s| <= 72 || (|s| == 73 && s[72] == '\n')
  {
  }

  /** A REF value is `#` and four digits, optionally followed by one final newline. */
  lemma RefValueLanguage(s: string)
    ensures IsRefValue(s) <==>
      && 5 <= |s| <= 6
      && s[0] == '#'
      && (forall k | 1 <= k < 5 :: IsDigit(s[k]))
      && (|s| == 6 ==> s[5] == '\n')
  {
    if |s| == 6 && s[5] == '\n' {
      assert s[..5][0] == s[0];
      assert forall k | 1 <= k < 5 :: s[..5][k] == s[k];
    }
  }

  /** On a single line: a REF value is accepted iff it has length 5, starts with
      `#` and continues with four decimal digits. */
  lemma RefValueOnLine(s: string)
    requires NoNewline(s)
    ensures IsRefValue(s) <==> |s| == 5 && s[0] == '#' && forall k | 1 <= k < 5 :: IsDigit(s[k])
  {
    RefValueLanguage(s);
  }

  /** The digit count is exactly four: fewer or more are rejected. */
  lemma RefDigitCount()
    ensures IsRefValue("#0042")
    ensures !IsRefValue("#42")
    ensures !IsRefValue("#12345")
    ensures !IsRefValue("0042")
  {
    RefValueOnLine("#0042");
    RefValueOnLine("#42");
    RefValueOnLine("#12345");
    RefValueOnLine("0042");
  }

  /** A Description value is at least 72 characters with no newline, except
      that `$` lets one final newline follow them. */
  lemma DescriptionValueLanguage(s: string)
    ensures IsDescriptionValue(s) <==>
      && |s| >= 72
      && NoNewline(s[..|s| - 1])
      && (s[|s| - 1] == '\n' ==> |s| >= 73)
  {
    if |s| >= 72 && NoNewline(s[..|s| - 1]) {
      if s[|s| - 1] != '\n' {
        forall k | 0 <= k < |s| ensures s[k] != '\n' {
          if k < |s| - 1 {
            assert s[..|s| - 1][k] == s[k];
          }
        }
      }
    }
  }

  /** On a single line: a Description value is accepted iff it is at least 72 characters long. */
  lemma DescriptionValueOnLine(s: string)
    requires NoNewline(s)
    ensures IsDescriptionValue(s) <==> |s| >= 72
  {
    DollarMatchOnLine(DescriptionBody, s);
  }

  /** The two free-text thresholds meet at 72: every single line passes at least
      one of the `<prefix>:` and Description tests, and it passes both exactly
      when it is 72 characters long. */
  lemma LengthThresholdsMeet(s: string)
    requires NoNewline(s)
    ensures IsPrefixValue(s) || IsDescriptionValue(s)
    ensures IsPrefixValue(s) && IsDescriptionValue(s) <==> |s| == 72
    ensures |s| == 71 ==> IsPrefixValue(s) && !IsDescriptionValue(s)
    ensures |s| == 73 ==> !IsPrefixValue(s) && IsDescriptionValue(s)
  {
    DollarMatchOnLine(PrefixBody, s);
    DescriptionValueOnLine(s);
  }

  // ----------------------------------------------------------------------
  // The sign-off language
  // ----------------------------------------------------------------------

  /** `([a-z]{2,4})+` accepts exactly the runs of two or more lowercase letters:
      the upper bound 4 of each chunk is lifted by the repetition. */
  lemma {:induction false} TldRepeatIsLowerRun(t: string)
    ensures TldRepeat(t) <==> |t| >= 2 && AllLower(t)
    decreases |t|
  {
    if TldRepeat(t) {
      var k :| 2 <= k <= 4 && k <= |t| && TldChunk(t[..k]) && (k == |t| || TldRepeat(t[k..]));
      if k < |t| {
        TldRepeatIsLowerRun(t[k..]);
      }
      forall m | 0 <= m < |t| ensures IsLower(t[m]) {
        if m < k {
          assert t[..k][m] == t[m];
        } else {
          assert t[k..][m - k] == t[m];
        }
      }
    }
    if |t| >= 2 && AllLower(t) {
      var k := if |t| <= 4 then |t| else 2;
      assert TldChunk(t[..k]) by {
        assert forall m | 0 <= m < k :: t[..k][m] == t[m];
      }
      if k < |t| {
        assert AllLower(t[k..]) by {
          assert forall m | 0 <= m < |t| - k :: t[k..][m] == t[k + m];
        }
        TldRepeatIsLowerRun(t[k..]);
      }
      assert TldChunk(t[..k]) && (k == |t| || TldRepeat(t[k..]));
    }
  }

  /** The sign-off language read character by character: whitespace occurs at
      exactly two positions `i` and `j`, each ending a non-empty token; after the
      second comes a non-empty token, an `@` at `p`, a non-empty run of
      `[a-z0-9-]`, a `.` at `q`, and two or more lowercase letters to the end. */
  ghost predicate SignoffShape(t: string, i: int, j: int, p: int, q: int) {
    && 0 < i && i + 1 < j && j + 1 < p && p + 1 < q && q + 2 < |t|
    && (forall k | 0 <= k < |t| :: IsSpace(t[k]) <==> k == i || k == j)
    && t[p] == '@'
    && (forall k | p < k < q :: IsDomainChar(t[k]))
    && t[q] == '.'
    && AllLower(t[q + 1..])
  }

  lemma SplitGivesShape(t: string, i: int, j: int, p: int, q: int)
    requires SignoffSplit(t, i, j, p, q)
    ensures SignoffShape(t, i - 1, j - 1, p, q)
  {
    TldRepeatIsLowerRun(t[q + 1..]);
    forall k | 0 <= k < |t| ensures IsSpace(t[k]) <==> k == i - 1 || k == j - 1 {
      if k < i - 1 {
        assert t[..i][..i - 1][k] == t[k];
      } else if k == i - 1 {
        assert t[..i][i - 1] == t[k];
      } else if k < j - 1 {
        assert t[i..j][..j - i - 1][k - i] == t[k];
      } else if k == j - 1 {
        assert t[i..j][j - i - 1] == t[k];
      } else if k < p {
        assert t[j..p][k - j] == t[k];
      } else if k == p {
      } else if k < q {
        assert t[p + 1..q][k - p - 1] == t[k];
      } else if k == q {
      } else {
        assert t[q + 1..][k - q - 1] == t[k];
      }
    }
    forall k | p < k < q ensures IsDomainChar(t[k]) {
      assert t[p + 1..q][k - p - 1] == t[k];
    }
  }

  lemma ShapeGivesSplit(t: string, i: int, j: int, p: int, q: int)
    requires SignoffShape(t, i, j, p, q)
    ensures SignoffSplit(t, i + 1, j + 1, p, q)
  {
    var first, second, owner, domain := t[..i], t[i + 1..j], t[j + 1..p], t[p + 1..q];
    forall k | 0 <= k < |first| ensures !IsSpace(first[k]) {
      assert first[k] == t[k];
    }
    forall k | 0 <= k < |second| ensures !IsSpace(second[k]) {
      assert second[k] == t[i + 1 + k];
    }
    forall k | 0 <= k < |owner| ensures !IsSpace(owner[k]) {
      assert owner[k] == t[j + 1 + k];
    }
    forall k | 0 <= k < |domain| ensures IsDomainChar(domain[k]) {
      assert domain[k] == t[p + 1 + k];
    }
    assert t[..i + 1][..i] == first;
    assert t[i + 1..j + 1][..j - i - 1] == second;
    TldRepeatIsLowerRun(t[q + 1..]);
  }

  /** The sign-off expression matches a whole string exactly when the string has
      the character-level shape above. */
  lemma SignoffBodyShape(t: string)
    ensures SignoffBody(t) <==> exists i, j, p, q :: SignoffShape(t, i, j, p, q)
  {
    if SignoffBody(t) {
      var i, j, p, q :| SignoffSplit(t, i, j, p, q);
      SplitGivesShape(t, i, j, p, q);
    }
    if exists i, j, p, q :: SignoffShape(t, i, j, p, q) {
      var i, j, p, q :| SignoffShape(t, i, j, p, q);
      ShapeGivesSplit(t, i, j, p, q);
    }
  }

  /** On a single line: the Signed-off-by test accepts exactly the lines of that shape. */
  lemma SignoffValueOnLine(s: string)
    requires NoNewline(s)
    ensures IsSignoffValue(s) <==> exists i, j, p, q :: SignoffShape(s, i, j, p, q)
  {
    DollarMatchOnLine(SignoffBody, s);
    SignoffBodyShape(s);
  }

  /** Whatever the sign-off expression matches ends in a lowercase letter. */
  lemma SignoffBodyEndsLower(t: string)
    ensures SignoffBody(t) ==> |t| > 0 && IsLower(t[|t| - 1])
  {
    SignoffBodyShape(t);
    if SignoffBody(t) {
      var i, j, p, q :| SignoffShape(t, i, j, p, q);
      assert t[q + 1..][|t| - q - 2] == t[|t| - 1];
    }
  }

  /** Whatever the sign-off expression matches contains an `@`. */
  lemma SignoffBodyHasAt(t: string)
    ensures SignoffBody(t) ==> '@' in t
  {
    if SignoffBody(t) {
      var i, j, p, q :| SignoffSplit(t, i, j, p, q);
      SplitGivesShape(t, i, j, p, q);
    }
  }

  /** A sign-off value without an `@` is rejected. */
  lemma SignoffNeedsAt(s: string)
    requires '@' !in s
    ensures !IsSignoffValue(s)
  {
  }

  /** A sign-off value must end in a `.` followed by two or more lowercase
      letters (a final newline aside). */
  lemma SignoffEndsInTopLevelPart(s: string)
    requires NoNewline(s) && IsSignoffValue(s)
    ensures exists q | 0 <= q && q + 2 < |s| :: s[q] == '.' && AllLower(s[q + 1..])
  {
    SignoffValueOnLine(s);
    var i, j, p, q :| SignoffShape(s, i, j, p, q);
  }

  /** Hence an address closed by `>` is rejected. */
  lemma SignoffRejectsClosingBracket(s: string)
    requires |s| > 0 && (s[|s| - 1] == '>' || (|s| > 1 && s[|s| - 1] == '\n' && s[|s| - 2] == '>'))
    ensures !IsSignoffValue(s)
  {
    SignoffBodyEndsLower(s);
    SignoffBodyEndsLower(s[..|s| - 1]);
  }

  /** In an accepted sign-off line the address after its last `@` is one
      `[a-z0-9-]` label, one dot and the lowercase top-level part. */
  lemma SignoffSingleLabelDomain(s: string)
    requires NoNewline(s)
    ensures IsSignoffValue(s) ==> exists p, q | 0 <= p < q < |s| ::
      && s[p] == '@'
      && s[q] == '.'
      && (forall k | p < k < |s| :: s[k] != '@')
      && (forall k | p < k < |s| && k != q :: IsDomainChar(s[k]))
  {
    SignoffValueOnLine(s);
    if IsSignoffValue(s) {
      var i, j, p, q :| SignoffShape(s, i, j, p, q);
      forall k | q < k < |s| ensures IsLower(s[k]) {
        assert s[q + 1..][k - q - 1] == s[k];
      }
      assert 0 <= p < q < |s| && s[p] == '@' && s[q] == '.'
        && (forall k | p < k < |s| :: s[k] != '@')
        && (forall k | p < k < |s| && k != q :: IsDomainChar(s[k]));
    }
  }

  /** So a domain with two dots after the last `@`, such as `x.co.uk`, is rejected. */
  lemma SignoffRejectsDottedDomain(s: string, a: int, d1: int, d2: int)
    requires NoNewline(s)
    requires 0 <= a < d1 < d2 < |s| && s[a] == '@' && s[d1] == '.' && s[d2] == '.'
    requires forall k | a < k < |s| :: s[k] != '@'
    ensures !IsSignoffValue(s)
  {
    SignoffSingleLabelDomain(s);
  }

  /** The whitespace of an accepted sign-off line: exactly two characters, the
      first not at the start and the two not adjacent. */
  lemma SignoffLineSpaces(s: string)
    requires NoNewline(s)
    ensures IsSignoffValue(s) ==> exists i, j | 0 < i && i + 1 < j < |s| ::
      && IsSpace(s[i]) && IsSpace(s[j])
      && forall k | 0 <= k < |s| && IsSpace(s[k]) :: k == i || k == j
  {
    SignoffValueOnLine(s);
    if IsSignoffValue(s) {
      var i, j, p, q :| SignoffShape(s, i, j, p, q);
      assert IsSpace(s[i]) && IsSpace(s[j]);
    }
  }

  /** Two whitespace characters in a row mean an empty name token: rejected. */
  lemma SignoffRejectsAdjacentSpaces(s: string, k: int)
    requires NoNewline(s)
    requires 0 <= k && k + 1 < |s| && IsSpace(s[k]) && IsSpace(s[k + 1])
    ensures !IsSignoffValue(s)
  {
    SignoffLineSpaces(s);
  }

  /** A line with fewer than two whitespace characters has fewer than two name
      tokens before the address: rejected. */
  lemma SignoffRejectsSingleName(s: string)
    requires NoNewline(s)
    requires forall k, m | 0 <= k < m < |s| :: !(IsSpace(s[k]) && IsSpace(s[m]))
    ensures !IsSignoffValue(s)
  {
    SignoffLineSpaces(s);
  }

  /** A third whitespace character, for a middle name, is rejected too. */
  lemma SignoffRejectsThirdName(s: string, a: int, b: int, c: int)
    requires NoNewline(s)
    requires 0 <= a < b < c < |s| && IsSpace(s[a]) && IsSpace(s[b]) && IsSpace(s[c])
    ensures !IsSignoffValue(s)
  {
    SignoffLineSpaces(s);
  }

  /** A leading whitespace character leaves the first name token empty: rejected. */
  lemma SignoffRejectsLeadingSpace(s: string)
    requires NoNewline(s)
    requires |s| > 0 && IsSpace(s[0])
    ensures !IsSignoffValue(s)
  {
    SignoffLineSpaces(s);
  }

  /** A sample sign-off that is accepted. */
  lemma SignoffAcceptedSample()
    ensures IsSignoffValue("A B a@x.co")
  {
    var s := "A B a@x.co";
    assert SignoffShape(s, 1, 3, 5, 7);
    SignoffValueOnLine(s);
  }

  /** A top-level part longer than four letters is accepted: the repetition of
      `[a-z]{2,4}` lifts the bound. */
  lemma SignoffLongTopLevelSample()
    ensures IsSignoffValue("A B a.b@x.museum")
  {
    var s := "A B a.b@x.museum";
    assert s[10..] == "museum";
    assert SignoffShape(s, 1, 3, 7, 9);
    SignoffValueOnLine(s);
  }

  /** Sample sign-offs that are rejected: a bracketed address, a two-dot domain,
      a doubled space, a single name and a missing `@`. */
  lemma SignoffRejectedSamples()
    ensures !IsSignoffValue("A B <a@x.co>")
    ensures !IsSignoffValue("A B a@x.co.uk")
    ensures !IsSignoffValue("A  B a@x.co")
    ensures !IsSignoffValue("A a@x.co")
    ensures !IsSignoffValue("A B ax.co")
  {
    SignoffRejectsClosingBracket("A B <a@x.co>");
    SignoffRejectsDottedDomain("A B a@x.co.uk", 5, 7, 10);
    SignoffRejectsAdjacentSpaces("A  B a@x.co", 1);
    SignoffRejectsSingleName("A a@x.co");
    SignoffNeedsAt("A B ax.co");
  }

  /** `$` tolerates one final newline: appending it to a single line changes
      none of the four verdicts. */
  lemma FinalNewlineTolerated(s: string)
    requires NoNewline(s)
    ensures IsPrefixValue(s + "\n") == IsPrefixValue(s)
    ensures IsRefValue(s + "\n") == IsRefValue(s)
    ensures IsDescriptionValue(s + "\n") == IsDescriptionValue(s)
    ensures IsSignoffValue(s + "\n") == IsSignoffValue(s)
  {
    var t := s + "\n";
    assert t[..|t| - 1] == s;
    assert t[|t| - 1] == '\n';
    DollarMatchOnLine(PrefixBody, s);
    DollarMatchOnLine(RefBody, s);
    DollarMatchOnLine(DescriptionBody, s);
    DollarMatchOnLine(SignoffBody, s);
    SignoffBodyEndsLower(t);
  }
}
