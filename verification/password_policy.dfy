/** The password rule both revisions share: the pattern `^(?=.*[A-Z]).{8,}$`
    applied with Python's `re.match` (app/auth.py:13, auth.py:11).

    Python reads the pattern with its default flags: `.` matches any
    character except a line feed, `[A-Z]` is the ASCII range only, and `$`
    matches at the end of the text or just before a final line feed.
 */
module PasswordPolicy {
  import opened Text

  /** The lookahead `(?=.*[A-Z])`: an upper-case letter appears before the
      first line feed. */
  ghost predicate UpperAhead(p: string) {
    exists k :: 0 <= k < |p| && IsUpper(p[k]) && forall j :: 0 <= j < k ==> p[j] != '\n'
  }

  /** `.{8,}$` consumes the first `m` characters and then `$` holds. */
  ghost predicate BodyEndsAt(p: string, m: int) {
    && 8 <= m <= |p|
    && (forall j :: 0 <= j < m ==> p[j] != '\n')
    && (m == |p| || (m == |p| - 1 && p[m] == '\n'))
  }

  /** The regular expression's verdict, read off its parts. */
  ghost predicate MatchesPattern(p: string) {
    UpperAhead(p) && exists m :: BodyEndsAt(p, m)
  }

  /** The text `$` measures: `p` without one final line feed. */
  function FirstLine(p: string): string {
    if |p| > 0 && p[|p| - 1] == '\n' then p[..|p| - 1] else p
  }

  predicate HasUpper(s: string) {
    exists i :: 0 <= i < |s| && IsUpper(s[i])
  }

  /** The decision the handlers take on a candidate password. */
  predicate Accepts(p: string) {
    var line := FirstLine(p);
    '\n' !in line && |line| >= 8 && HasUpper(line)
  }

  /** `Accepts` decides exactly the language of the pattern. */
  lemma AcceptsIffMatches(p: string)
    ensures Accepts(p) <==> MatchesPattern(p)
  {
    var line := FirstLine(p);
    if Accepts(p) {
      var i :| 0 <= i < |line| && IsUpper(line[i]);
      assert p[i] == line[i];
      assert forall j :: 0 <= j < |line| ==> p[j] == line[j];
      assert BodyEndsAt(p, |line|);
    }
    if MatchesPattern(p) {
      var m :| BodyEndsAt(p, m);
      var k :| 0 <= k < |p| && IsUpper(p[k]) && forall j :: 0 <= j < k ==> p[j] != '\n';
      assert |line| == m;
      assert forall j :: 0 <= j < |line| ==> line[j] == p[j];
      assert line[k] == p[k];
    }
  }

  /** On single-line text the rule is the one the source comment states:
      at least eight characters and at least one upper-case letter. */
  lemma PolicyOnSingleLine(p: string)
    requires '\n' !in p
    ensures Accepts(p) <==> |p| >= 8 && HasUpper(p)
  {
  }

  /** The `$` anchor also admits a password followed by one line feed. */
  lemma TrailingLineFeedAccepted()
    ensures Accepts("Abcdefgh\n") && !Accepts("Abcdefg\n")
  {
    assert FirstLine("Abcdefgh\n") == "Abcdefgh";
    assert IsUpper("Abcdefgh"[0]);
    assert FirstLine("Abcdefg\n") == "Abcdefg";
  }

  /** Examples: the length bound and the upper-case requirement bite separately. */
  lemma PolicyExamples()
    ensures Accepts("Password") && !Accepts("password") && !Accepts("Passwor")
  {
    assert IsUpper("Password"[0]);
    assert forall i :: 0 <= i < |"password"| ==> !IsUpper("password"[i]);
  }
}
