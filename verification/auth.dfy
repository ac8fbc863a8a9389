/** The sign-in page's client-side checks: the e-mail pattern
    `^[^\s@]+@[^\s@]+\.[^\s@]+$`, and the guards that decide whether a
    password sign-in, a sign-up or a magic link is requested or refused
    with a message. */
module Auth {
  import opened Text

  /** A run the class `[^\s@]+` matches: non-empty, without whitespace and
      without `@`. */
  predicate Segment(x: string)
  {
    |x| > 0 && NoSpace(x) && '@' !in x
  }

  /** The pattern's meaning: three such runs joined by `@` and `.`. */
  ghost predicate MatchesEmailPattern(s: string)
  {
    exists a, b, c :: Segment(a) && Segment(b) && Segment(c) && s == a + "@" + b + "." + c
  }

  /** `EMAIL_REGEX.test(email)`, decided directly: no whitespace, exactly
      one `@` with text before it, and a `.` after the `@` with text on
      both sides. */
  predicate IsValidEmail(s: string)
  {
    && NoSpace(s)
    && '@' in s
    && var p := IndexOf(s, '@');
    && 0 < p
    && '@' !in s[p + 1..]
    && exists q :: p + 1 < q < |s| - 1 && s[q] == '.'
  }

  lemma NoSpaceConcat(a: string, b: string)
    requires NoSpace(a) && NoSpace(b)
    ensures NoSpace(a + b)
  {
    forall i | 0 <= i < |a + b| ensures !IsJsSpace((a + b)[i]) {
      if i >= |a| {
        assert (a + b)[i] == b[i - |a|];
      }
    }
  }

  lemma NoSpaceSlice(s: string, i: nat, j: nat)
    requires NoSpace(s) && i <= j <= |s|
    ensures NoSpace(s[i..j])
  {
    forall k | 0 <= k < j - i ensures !IsJsSpace(s[i..j][k]) {
      assert s[i..j][k] == s[i + k];
    }
  }

  lemma ValidMatches(s: string)
    requires IsValidEmail(s)
    ensures MatchesEmailPattern(s)
  {
    var p := IndexOf(s, '@');
    var q :| p + 1 < q < |s| - 1 && s[q] == '.';
    var a, b, c := s[..p], s[p + 1..q], s[q + 1..];
    NoSpaceSlice(s, 0, p);
    NoSpaceSlice(s, p + 1, q);
    NoSpaceSlice(s, q + 1, |s|);
    assert s[p + 1..] == b + "." + c;
    assert '@' !in b && '@' !in c;
    assert s == a + "@" + b + "." + c;
    assert Segment(a) && Segment(b) && Segment(c);
  }

  lemma MatchesValid(a: string, b: string, c: string)
    requires Segment(a) && Segment(b) && Segment(c)
    ensures IsValidEmail(a + "@" + b + "." + c)
  {
    var s := a + "@" + b + "." + c;
    var rest := b + "." + c;
    NoSpaceConcat(b, ".");
    NoSpaceConcat(b + ".", c);
    NoSpaceConcat(a, "@");
    NoSpaceConcat(a + "@", rest);
    assert s == a + "@" + rest;
    IndexOfAfter(a, '@', rest);
    assert s == a + ['@'] + rest;
    assert s[|a| + 1..] == rest;
    assert '@' !in rest;
    assert s[|a| + 1 + |b|] == '.';
  }

  /** The direct check accepts exactly the strings the pattern matches. */
  lemma EmailPatternIff(s: string)
    ensures MatchesEmailPattern(s) <==> IsValidEmail(s)
  {
    if IsValidEmail(s) {
      ValidMatches(s);
    }
    if MatchesEmailPattern(s) {
      var a, b, c :| Segment(a) && Segment(b) && Segment(c) && s == a + "@" + b + "." + c;
      MatchesValid(a, b, c);
    }
  }

  // ---------------------------------------------------------------------
  // Guards

  const MIN_PASSWORD_LENGTH: nat := 6

  const BAD_CREDENTIALS: string := "Email ou mot de passe invalide."
  const BAD_EMAIL: string := "Email invalide."
  const SHORT_PASSWORD: string := "Mot de passe \U{2265} 6 caract\U{00E8}res."
  const PASSWORD_MISMATCH: string := "Les mots de passe ne correspondent pas."

  /** `s.length`: UTF-16 code units, two for a character outside the Basic
      Multilingual Plane. */
  function Utf16Length(s: string): (n: nat)
    ensures |s| <= n <= 2 * |s|
  {
    if |s| == 0 then 0 else (if s[0] as int > 0xFFFF then 2 else 1) + Utf16Length(s[1..])
  }

  /** A guard's verdict: refused with a message, or the request it sends. */
  datatype Verdict<T> = Refused(message: string) | Send(request: T)

  datatype Credentials = Credentials(email: string, password: string)

  datatype SignUpRequest = SignUpRequest(email: string, password: string, username: string)

  /** `signInWithPassword`: refused when the e-mail does not match or the
      password is empty. */
  function SignIn(email: string, password: string): (v: Verdict<Credentials>)
    ensures v.Refused? <==> !IsValidEmail(email) || password == ""
    ensures v.Refused? ==> v.message == BAD_CREDENTIALS
    ensures v.Send? ==> v.request == Credentials(email, password)
  {
    if !IsValidEmail(email) || password == "" then Refused(BAD_CREDENTIALS)
    else Send(Credentials(email, password))
  }

  /** `email.split("@")[0]`: the text before the first `@`. */
  function Username(email: string): (u: string)
    ensures '@' !in u
  {
    Split(email, '@')[0]
  }

  /** For a well-formed address the username seed is its local part. */
  lemma UsernameIsLocalPart(a: string, rest: string)
    requires '@' !in a
    ensures Username(a + "@" + rest) == a
  {
    IndexOfAfter(a, '@', rest);
    var s := a + "@" + rest;
    assert s == a + ['@'] + rest;
    assert s[..|a|] == a;
  }

  /** `signUp`: three checks in order, the first that fails sets its own
      message and nothing is sent. */
  function SignUp(email: string, password: string, password2: string): (v: Verdict<SignUpRequest>)
    ensures v == Refused(BAD_EMAIL) <==> !IsValidEmail(email)
    ensures v == Refused(SHORT_PASSWORD) <==>
      IsValidEmail(email) && (password == "" || Utf16Length(password) < MIN_PASSWORD_LENGTH)
    ensures v == Refused(PASSWORD_MISMATCH) <==>
      IsValidEmail(email) && password != "" && Utf16Length(password) >= MIN_PASSWORD_LENGTH && password != password2
    ensures v.Send? ==> v.request.email == email && v.request.password == password && password == password2
  {
    if !IsValidEmail(email) then Refused(BAD_EMAIL)
    else if password == "" || Utf16Length(password) < MIN_PASSWORD_LENGTH then Refused(SHORT_PASSWORD)
    else if password != password2 then Refused(PASSWORD_MISMATCH)
    else Send(SignUpRequest(email, password, Username(email)))
  }

  /** A sign-up that goes through carries the address's local part as the
      username seed. */
  lemma SignUpUsername(a: string, b: string, c: string, password: string)
    requires Segment(a) && Segment(b) && Segment(c)
    requires Utf16Length(password) >= MIN_PASSWORD_LENGTH
    ensures var email := a + "@" + b + "." + c;
      SignUp(email, password, password) == Send(SignUpRequest(email, password, a))
  {
    var email := a + "@" + b + "." + c;
    EmailPatternIff(email);
    assert email == a + "@" + (b + "." + c);
    UsernameIsLocalPart(a, b + "." + c);
  }

  /** `sendMagicLink`: refused only for an e-mail that does not match. */
  function MagicLink(email: string): (v: Verdict<string>)
    ensures v.Refused? <==> !IsValidEmail(email)
    ensures v.Refused? ==> v.message == BAD_EMAIL
    ensures v.Send? ==> v.request == email
  {
    if !IsValidEmail(email) then Refused(BAD_EMAIL) else Send(email)
  }
}
