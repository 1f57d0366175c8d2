/**
 * The recipient check of the send loop:
 * `re.fullmatch(r"^((?!\.)[\w\-_.]*[^.])(@\w+)(\.\w+(\.\w+)?[^.\W])$", email)`,
 * hand-coded as a predicate, one predicate per group of the pattern. It is
 * not an RFC 5322 address grammar. Which characters `\w` accepts (Unicode
 * word characters in Python 3) is the parameter `isWord`.
 */
module Address {

  /** `[\w\-_.]`: a character the local part may repeat. */
  predicate LocalChar(c: char, isWord: char -> bool) {
    isWord(c) || c == '-' || c == '_' || c == '.'
  }

  /** Group 1, `(?!\.)[\w\-_.]*[^.]`: no leading `.`, then local characters,
      then one last character that may be anything but `.`. */
  predicate LocalPart(p: string, isWord: char -> bool) {
    && |p| >= 1
    && p[0] != '.'
    && (forall i | 0 <= i < |p| - 1 :: LocalChar(p[i], isWord))
    && p[|p| - 1] != '.'
  }

  /** `\w+` */
  predicate Word(w: string, isWord: char -> bool) {
    |w| >= 1 && forall i | 0 <= i < |w| :: isWord(w[i])
  }

  /** Group 4, `(\.\w+)?` */
  predicate OptionalLabel(u: string, isWord: char -> bool) {
    u == [] || (u[0] == '.' && Word(u[1..], isWord))
  }

  /** Group 3, `\.\w+(\.\w+)?[^.\W]`: a dot, a word, an optional dotted word,
      and a last character that is a word character other than `.`. */
  predicate TopLevel(t: string, isWord: char -> bool) {
    && |t| >= 3
    && t[0] == '.'
    && isWord(t[|t| - 1]) && t[|t| - 1] != '.'
    && exists j | 2 <= j <= |t| - 1 :: Word(t[1..j], isWord) && OptionalLabel(t[j..|t| - 1], isWord)
  }

  /** What follows the `@`: the `\w+` of group 2, then group 3. */
  predicate DomainPart(d: string, isWord: char -> bool) {
    exists k | 1 <= k <= |d| :: Word(d[..k], isWord) && TopLevel(d[k..], isWord)
  }

  /** `re.fullmatch(email_pattern, s) is not None`: some `@` splits `s` into
      a local part and a domain part. */
  predicate IsAddress(s: string, isWord: char -> bool) {
    exists at | 0 <= at < |s| :: s[at] == '@' && LocalPart(s[..at], isWord) && DomainPart(s[at + 1..], isWord)
  }

  /** The part after the domain label's dot: one word of at least two
      characters, or two words joined by a dot, the second of at least two. */
  predicate LastLabels(r: string, isWord: char -> bool) {
    || (Word(r, isWord) && |r| >= 2)
    || exists j | 1 <= j < |r| - 2 :: r[j] == '.' && Word(r[..j], isWord) && Word(r[j + 1..], isWord)
  }

  /** Two or three dot-separated word labels, the last at least two
      characters long. */
  predicate Labels(d: string, isWord: char -> bool) {
    exists i | 1 <= i < |d| :: d[i] == '.' && Word(d[..i], isWord) && LastLabels(d[i + 1..], isWord)
  }

  /** The `[^.\W]` character and an empty group 4 end the first label
      after the dot. */
  lemma WordEndsLabel(t: string, j: nat, isWord: char -> bool)
    requires 2 <= j == |t| - 1 && Word(t[1..j], isWord) && isWord(t[|t| - 1])
    ensures Word(t[1..], isWord) && |t[1..]| >= 2
  {
    assert forall x | 0 <= x < j - 1 :: t[1..][x] == t[1..j][x];
  }

  /** A non-empty group 4 splits the part after the dot into two labels. */
  lemma GroupFourSplits(t: string, j: nat, isWord: char -> bool)
    requires 2 <= j < |t| - 1 && Word(t[1..j], isWord) && isWord(t[|t| - 1])
    requires OptionalLabel(t[j..|t| - 1], isWord)
    ensures LastLabels(t[1..], isWord)
  {
    var r := t[1..];
    var u := t[j..|t| - 1];
    var j' := j - 1;
    assert r[j'] == u[0] == '.';
    assert r[..j'] == t[1..j];
    assert forall x | 0 <= x < |u| - 1 :: r[j' + 1..][x] == u[1..][x];
    assert r[j' + 1..][|r| - j' - 2] == t[|t| - 1];
  }

  lemma DomainToLabels(d: string, isWord: char -> bool)
    requires DomainPart(d, isWord)
    ensures Labels(d, isWord)
  {
    var k :| 1 <= k <= |d| && Word(d[..k], isWord) && TopLevel(d[k..], isWord);
    var t := d[k..];
    var j :| 2 <= j <= |t| - 1 && Word(t[1..j], isWord) && OptionalLabel(t[j..|t| - 1], isWord);
    assert d[k + 1..] == t[1..];
    if j == |t| - 1 {
      WordEndsLabel(t, j, isWord);
    } else {
      GroupFourSplits(t, j, isWord);
    }
    assert d[k] == '.';
  }

  /** A single last label is group 3 with an empty group 4. */
  lemma OneLabelIsTopLevel(t: string, isWord: char -> bool)
    requires |t| >= 3 && t[0] == '.' && Word(t[1..], isWord)
    requires !isWord('.')
    ensures TopLevel(t, isWord)
  {
    var r := t[1..];
    var j := |t| - 1;
    assert t[1..j] == r[..|r| - 1];
    assert t[|t| - 1] == r[|r| - 1];
    assert Word(t[1..j], isWord) && OptionalLabel(t[j..|t| - 1], isWord);
  }

  /** Two last labels are group 3 with a non-empty group 4. */
  lemma TwoLabelsAreTopLevel(t: string, j': nat, isWord: char -> bool)
    requires |t| >= 1 && t[0] == '.'
    requires 1 <= j' < |t| - 3 && t[1..][j'] == '.' && Word(t[1..][..j'], isWord) && Word(t[1..][j' + 1..], isWord)
    requires !isWord('.')
    ensures TopLevel(t, isWord)
  {
    var r := t[1..];
    var j := j' + 1;
    assert t[1..j] == r[..j'];
    var u := t[j..|t| - 1];
    assert u[1..] == r[j' + 1..][..|r| - j' - 2];
    assert t[|t| - 1] == r[j' + 1..][|r| - j' - 2];
    assert Word(t[1..j], isWord) && OptionalLabel(u, isWord);
  }

  lemma LabelsToDomain(d: string, isWord: char -> bool)
    requires !isWord('.')
    requires Labels(d, isWord)
    ensures DomainPart(d, isWord)
  {
    var i :| 1 <= i < |d| && d[i] == '.' && Word(d[..i], isWord) && LastLabels(d[i + 1..], isWord);
    var t := d[i..];
    assert d[i + 1..] == t[1..];
    if Word(t[1..], isWord) && |t[1..]| >= 2 {
      OneLabelIsTopLevel(t, isWord);
    } else {
      var j' :| 1 <= j' < |t[1..]| - 2 && t[1..][j'] == '.' && Word(t[1..][..j'], isWord) && Word(t[1..][j' + 1..], isWord);
      TwoLabelsAreTopLevel(t, j', isWord);
    }
  }

  /** Groups 2 and 3 of the pattern accept exactly two or three labels, the
      last one at least two characters long (`\w+` followed by `[^.\W]`). */
  lemma DomainIsLabels(d: string, isWord: char -> bool)
    requires !isWord('.')
    ensures DomainPart(d, isWord) <==> Labels(d, isWord)
  {
    if DomainPart(d, isWord) {
      DomainToLabels(d, isWord);
    }
    if Labels(d, isWord) {
      LabelsToDomain(d, isWord);
    }
  }

  /** What the examples need of `\w`: ASCII letters, digits and `_` are word
      characters; `.` and `@` are not. */
  predicate AsciiWord(isWord: char -> bool) {
    && (forall c | 'a' <= c <= 'z' || 'A' <= c <= 'Z' || '0' <= c <= '9' || c == '_' :: isWord(c))
    && !isWord('.')
    && !isWord('@')
  }

  /** An accepted address does not start with `.`, holds an `@`, and ends in
      a word character. */
  lemma AcceptedShape(s: string, isWord: char -> bool)
    requires IsAddress(s, isWord)
    ensures s[0] != '.' && '@' in s && isWord(s[|s| - 1]) && s[|s| - 1] != '.'
  {
    NeedsAt(s, isWord);
    var at :| 0 <= at < |s| && s[at] == '@' && LocalPart(s[..at], isWord) && DomainPart(s[at + 1..], isWord);
    assert s[..at][0] == s[0];
    DomainEnd(s[at + 1..], isWord);
    assert s[at + 1..][|s[at + 1..]| - 1] == s[|s| - 1];
  }

  /** A domain part ends in a word character other than `.`. */
  lemma DomainEnd(d: string, isWord: char -> bool)
    requires DomainPart(d, isWord)
    ensures |d| >= 1 && isWord(d[|d| - 1]) && d[|d| - 1] != '.'
  {
    var k :| 1 <= k <= |d| && Word(d[..k], isWord) && TopLevel(d[k..], isWord);
    assert d[k..][|d[k..]| - 1] == d[|d| - 1];
  }

  lemma AcceptsAlice(isWord: char -> bool)
    requires AsciiWord(isWord)
    ensures IsAddress("alice@example.com", isWord)
  {
    var s := "alice@example.com";
    var d := s[6..];
    assert LocalPart(s[..5], isWord);
    assert Word(d[..7], isWord);
    var t := d[7..];
    assert t == ".com";
    assert Word(t[1..3], isWord) && OptionalLabel(t[3..3], isWord);
    assert TopLevel(t, isWord);
    assert DomainPart(d, isWord);
  }

  lemma AcceptsBob(isWord: char -> bool)
    requires AsciiWord(isWord)
    ensures IsAddress("bob@example.co.uk", isWord)
  {
    var s := "bob@example.co.uk";
    var d := s[4..];
    assert LocalPart(s[..3], isWord);
    assert Word(d[..7], isWord);
    var t := d[7..];
    assert t == ".co.uk";
    assert t[3..5] == ".u" && t[3..5][1..] == "u";
    assert Word(t[1..3], isWord) && OptionalLabel(t[3..5], isWord);
    assert TopLevel(t, isWord);
    assert DomainPart(d, isWord);
  }

  /** The last character of the local part may be anything but `.`, even a
      second `@`. */
  lemma AcceptsDoubleAt(isWord: char -> bool)
    requires AsciiWord(isWord)
    ensures IsAddress("a@@example.com", isWord)
  {
    var s := "a@@example.com";
    var d := s[3..];
    assert LocalPart(s[..2], isWord);
    assert Word(d[..7], isWord);
    var t := d[7..];
    assert t == ".com";
    assert Word(t[1..3], isWord) && OptionalLabel(t[3..3], isWord);
    assert TopLevel(t, isWord);
    assert DomainPart(d, isWord);
    assert s[2] == '@';
  }

  /** The local part may not end with `.`. */
  lemma RejectsTrailingDot(isWord: char -> bool)
    ensures !IsAddress("alice.@example.com", isWord)
  {
    var s := "alice.@example.com";
    assert '@' !in s[..6] && '@' !in s[7..];
    forall at | 0 <= at < |s| && s[at] == '@'
      ensures !LocalPart(s[..at], isWord)
    {
      assert s == s[..6] + [s[6]] + s[7..];
      assert at == 6;
      assert s[..6][5] == '.';
    }
  }

  /** The domain needs a dot. */
  lemma RejectsNoDot(isWord: char -> bool)
    ensures !IsAddress("bad@com", isWord)
  {
    var s := "bad@com";
    assert '@' !in s[..3] && '@' !in s[4..];
    forall at | 0 <= at < |s| && s[at] == '@'
      ensures !DomainPart(s[at + 1..], isWord)
    {
      assert s == s[..3] + [s[3]] + s[4..];
      assert at == 3;
      var d := s[4..];
      assert d == "com";
      forall k | 1 <= k <= |d|
        ensures !TopLevel(d[k..], isWord)
      {
        assert k < |d| ==> d[k..][0] == d[k];
      }
    }
  }

  /** An address needs an `@`. */
  lemma NeedsAt(s: string, isWord: char -> bool)
    ensures IsAddress(s, isWord) ==> '@' in s
  {
    if IsAddress(s, isWord) {
      var at :| 0 <= at < |s| && s[at] == '@' && LocalPart(s[..at], isWord) && DomainPart(s[at + 1..], isWord);
    }
  }

  lemma RejectsNoAt(isWord: char -> bool)
    ensures !IsAddress("no-at-sign.example.com", isWord)
  {
    var s := "no-at-sign.example.com";
    NoAtSign();
    NeedsAt(s, isWord);
  }

  lemma NoAtSign()
    ensures '@' !in "no-at-sign.example.com"
  {
  }

  /** At most two dotted groups follow the domain label. */
  lemma RejectsThreeDots(isWord: char -> bool)
    requires AsciiWord(isWord)
    ensures !IsAddress("a@b.c.d.ee", isWord)
  {
    var s := "a@b.c.d.ee";
    assert '@' !in s[..1] && '@' !in s[2..];
    forall at | 0 <= at < |s| && s[at] == '@'
      ensures !DomainPart(s[at + 1..], isWord)
    {
      assert s == s[..1] + [s[1]] + s[2..];
      assert at == 1;
      var d := s[2..];
      assert d == "b.c.d.ee";
      forall k | 1 <= k <= |d| && Word(d[..k], isWord)
        ensures !TopLevel(d[k..], isWord)
      {
        assert d[1] == '.';
        assert k == 1;
        var t := d[1..];
        assert t == ".c.d.ee";
        forall j | 2 <= j <= |t| - 1 && Word(t[1..j], isWord)
          ensures !OptionalLabel(t[j..|t| - 1], isWord)
        {
          assert t[2] == '.';
          assert j == 2;
          var u := t[2..6];
          assert u[1..][1] == t[4] == '.';
        }
      }
    }
  }
}
