/**
 * The checkout form's `validateForm`: a name is required once trimmed, an
 * email is required once trimmed and must otherwise match the anchored pattern
 * `^[^\s@]+@[^\s@]+\.[^\s@]+$`, tested on the untrimmed text. `handleSubmit`
 * hands the untrimmed name and email on only when no error was recorded.
 */
module CheckoutForm {
  import opened Records

  /** JavaScript's white space and line terminators: the class `\s`, and what `trim()` strips. */
  predicate IsSpace(c: char) {
    var n := c as int;
    || n == 0x09 || n == 0x0A || n == 0x0B || n == 0x0C || n == 0x0D || n == 0x20
    || n == 0xA0 || n == 0x1680 || (0x2000 <= n <= 0x200A)
    || n == 0x2028 || n == 0x2029 || n == 0x202F || n == 0x205F || n == 0x3000 || n == 0xFEFF
  }

  /** Every character is white space (the empty string included). */
  predicate IsBlank(s: string) {
    forall i | 0 <= i < |s| :: IsSpace(s[i])
  }

  /** Drops leading white space: what is left is a suffix that starts with a non-space. */
  function TrimStart(s: string): (r: string)
    ensures |r| <= |s| && r == s[|s| - |r|..]
    ensures forall i | 0 <= i < |s| - |r| :: IsSpace(s[i])
    ensures r == [] || !IsSpace(r[0])
  {
    if s != [] && IsSpace(s[0]) then TrimStart(s[1..]) else s
  }

  /** Drops trailing white space: what is left is a prefix that ends with a non-space. */
  function TrimEnd(s: string): (r: string)
    ensures |r| <= |s| && r == s[..|r|]
    ensures forall i | |r| <= i < |s| :: IsSpace(s[i])
    ensures r == [] || !IsSpace(r[|r| - 1])
  {
    if s != [] && IsSpace(s[|s| - 1]) then TrimEnd(s[..|s| - 1]) else s
  }

  /** `String.prototype.trim`: the slice `s[a..a + |r|]` left once white space is cut off both ends. */
  function Trim(s: string): (r: string)
    ensures |r| <= |TrimStart(s)| <= |s|
    ensures r == s[|s| - |TrimStart(s)|..][..|r|]
    ensures forall i | 0 <= i < |s| - |TrimStart(s)| :: IsSpace(s[i])
    ensures forall i | |s| - |TrimStart(s)| + |r| <= i < |s| :: IsSpace(s[i])
    ensures r == [] || (!IsSpace(r[0]) && !IsSpace(r[|r| - 1]))
  {
    var t := TrimStart(s);
    var r := TrimEnd(t);
    TrimTail(s, t, r);
    r
  }

  /** `!s.trim()` holds exactly for the strings made of white space only. */
  lemma TrimEmptyIffBlank(s: string)
    ensures Trim(s) == "" <==> IsBlank(s)
  {
    var t := TrimStart(s);
    if !IsBlank(s) {
      var k :| 0 <= k < |s| && !IsSpace(s[k]);
      assert t != [] && k >= |s| - |t|;
      assert t[0] == s[|s| - |t|];
      assert !IsSpace(t[0]);
    }
  }

  /** The white space `TrimEnd` cut off `t`, a suffix of `s`, lies at the end of `s`. */
  lemma TrimTail(s: string, t: string, r: string)
    requires |t| <= |s| && t == s[|s| - |t|..]
    requires |r| <= |t| && forall i | |r| <= i < |t| :: IsSpace(t[i])
    ensures forall i | |s| - |t| + |r| <= i < |s| :: IsSpace(s[i])
  {
    forall i | |s| - |t| + |r| <= i < |s|
      ensures IsSpace(s[i])
    {
      assert t[i - (|s| - |t|)] == s[i];
    }
  }

  // ---------------------------------------------------------------- the email pattern

  /** `[^\s@]`: a character other than white space and `@`. */
  predicate PatternChar(c: char) {
    !IsSpace(c) && c != '@'
  }

  /** `[^\s@]+`: one or more such characters. */
  predicate PatternRun(t: string) {
    |t| > 0 && forall k | 0 <= k < |t| :: PatternChar(t[k])
  }

  /** `/^[^\s@]+@[^\s@]+\.[^\s@]+$/.test(s)`: a run, `@`, a run, `.`, a run, and nothing else. */
  predicate MatchesEmailPattern(s: string)
    ensures MatchesEmailPattern(s) ==> |s| >= 5 && !IsSpace(s[0]) && !IsSpace(s[|s| - 1])
  {
    exists i, j | 0 <= i < j < |s| ::
      s[i] == '@' && s[j] == '.' && PatternRun(s[..i]) && PatternRun(s[i + 1..j]) && PatternRun(s[j + 1..])
  }

  function CountOf(s: string, c: char): nat {
    if s == [] then 0 else (if s[0] == c then 1 else 0) + CountOf(s[1..], c)
  }

  /** The first index of `c` in `s`, or `|s|` when there is none. */
  function IndexOf(s: string, c: char): (r: nat)
    ensures r <= |s|
    ensures r < |s| ==> s[r] == c
    ensures forall k | 0 <= k < r :: s[k] != c
  {
    if s == [] then 0 else if s[0] == c then 0 else 1 + IndexOf(s[1..], c)
  }

  /** The domain holds a `.` with at least one character before it and one after it. */
  predicate HasInnerDot(d: string) {
    exists k | 0 < k < |d| - 1 :: d[k] == '.'
  }

  /**
   * The pattern in words: exactly one `@`, no white space, a non-empty part before the
   * `@`, and a domain after it holding a `.` with a character on each side.
   */
  predicate EmailShape(s: string)
    ensures EmailShape(s) ==> |s| >= 5 && s[0] != '@'
  {
    && CountOf(s, '@') == 1
    && (forall k | 0 <= k < |s| :: !IsSpace(s[k]))
    && var i := IndexOf(s, '@');
       0 < i < |s| && HasInnerDot(s[i + 1..])
  }

  lemma {:induction false} CountAbsent(s: string, c: char)
    requires forall k | 0 <= k < |s| :: s[k] != c
    ensures CountOf(s, c) == 0
  {
    if s != [] {
      CountAbsent(s[1..], c);
    }
  }

  lemma {:induction false} CountAppend(a: string, b: string, c: char)
    ensures CountOf(a + b, c) == CountOf(a, c) + CountOf(b, c)
  {
    if a == [] {
      assert a + b == b;
    } else {
      assert (a + b)[1..] == a[1..] + b;
      CountAppend(a[1..], b, c);
    }
  }

  /** With a single occurrence of `c`, every index holding `c` is the first one. */
  lemma {:induction false} CountOneUnique(s: string, c: char, k: nat)
    requires CountOf(s, c) == 1 && k < |s| && s[k] == c
    ensures k == IndexOf(s, c)
  {
    if s[0] == c {
      if k > 0 {
        assert s[1..][k - 1] == c;
        CountPresent(s[1..], c, k - 1);
      }
    } else {
      CountOneUnique(s[1..], c, k - 1);
    }
  }

  lemma {:induction false} CountPresent(s: string, c: char, k: nat)
    requires k < |s| && s[k] == c
    ensures CountOf(s, c) > 0
  {
    if k > 0 {
      CountPresent(s[1..], c, k - 1);
    }
  }

  /** The anchored pattern accepts exactly the strings of `EmailShape`. */
  lemma EmailPatternIff(s: string)
    ensures MatchesEmailPattern(s) <==> EmailShape(s)
  {
    if MatchesEmailPattern(s) {
      var i, j :| 0 <= i < j < |s| && s[i] == '@' && s[j] == '.'
        && PatternRun(s[..i]) && PatternRun(s[i + 1..j]) && PatternRun(s[j + 1..]);
      PatternImpliesShape(s, i, j);
    }
    if EmailShape(s) {
      ShapeImpliesPattern(s);
    }
  }

  lemma PatternImpliesShape(s: string, i: nat, j: nat)
    requires i < j < |s| && s[i] == '@' && s[j] == '.'
    requires PatternRun(s[..i]) && PatternRun(s[i + 1..j]) && PatternRun(s[j + 1..])
    ensures EmailShape(s)
  {
    forall k | 0 <= k < |s| && k != i
      ensures PatternChar(s[k]) || s[k] == '.'
    {
      if k < i {
        assert s[..i][k] == s[k];
      } else if i < k < j {
        assert s[i + 1..j][k - i - 1] == s[k];
      } else if j < k {
        assert s[j + 1..][k - j - 1] == s[k];
      }
    }
    assert s == s[..i] + s[i..];
    CountAppend(s[..i], s[i..], '@');
    CountAbsent(s[..i], '@');
    assert s[i..][1..] == s[i + 1..];
    CountAbsent(s[i + 1..], '@');
    assert IndexOf(s, '@') == i by {
      var r := IndexOf(s, '@');
      assert r <= i;
      assert forall m | 0 <= m < i :: s[..i][m] == s[m];
    }
    var d := s[i + 1..];
    assert d[j - i - 1] == '.';
  }

  lemma ShapeImpliesPattern(s: string)
    requires EmailShape(s)
    ensures MatchesEmailPattern(s)
  {
    var i := IndexOf(s, '@');
    var d := s[i + 1..];
    var k :| 0 < k < |d| - 1 && d[k] == '.';
    var j := i + 1 + k;
    assert s[j] == '.';
    forall m | 0 <= m < |s| && m != i
      ensures s[m] != '@'
    {
      if s[m] == '@' {
        CountOneUnique(s, '@', m);
      }
    }
    assert PatternRun(s[..i]);
    assert PatternRun(s[i + 1..j]);
    assert PatternRun(s[j + 1..]);
  }

  /** `not-an-email` is rejected: it has no `@`. */
  lemma NoAtRejected()
    ensures !MatchesEmailPattern("not-an-email")
  {
    var s := "not-an-email";
    assert forall i | 0 <= i < |s| :: s[i] != '@';
  }

  /** `a@b` is rejected: its domain has no inner `.`. */
  lemma NoDotRejected()
    ensures !MatchesEmailPattern("a@b")
  {
    EmailPatternIff("a@b");
    assert IndexOf("a@b", '@') == 1;
    assert "a@b"[2..] == "b";
  }

  /** `a@b.com` is accepted. */
  lemma PlainAddressAccepted()
    ensures MatchesEmailPattern("a@b.com")
  {
    EmailPatternIff("a@b.com");
    assert CountOf("a@b.com", '@') == 1;
    assert IndexOf("a@b.com", '@') == 1;
    var d := "a@b.com"[2..];
    assert d == "b.com";
    assert d[1] == '.';
    assert forall k | 0 <= k < 7 :: !IsSpace("a@b.com"[k]);
  }

  // ---------------------------------------------------------------- validateForm and handleSubmit

  const NameRequired := "Name is required"
  const EmailRequired := "Email is required"
  const EmailInvalid := "Invalid email address"

  /** The `newErrors` object: a field is `Some` when `validateForm` set it. */
  datatype FormErrors = FormErrors(name: Option<string>, email: Option<string>)

  /** The errors written to the form state, and `validateForm`'s return value. */
  datatype Validation = Validation(errors: FormErrors, ok: bool)

  function ValidateForm(name: string, email: string): (r: Validation)
    ensures r.errors.name == (if IsBlank(name) then Some(NameRequired) else None)
    ensures r.errors.email ==
      if IsBlank(email) then Some(EmailRequired)
      else if EmailShape(email) then None
      else Some(EmailInvalid)
    ensures r.ok <==> r.errors.name.None? && r.errors.email.None?
    ensures r.ok <==> !IsBlank(name) && EmailShape(email)
  {
    TrimEmptyIffBlank(name);
    TrimEmptyIffBlank(email);
    EmailPatternIff(email);
    var nameError := if Trim(name) == "" then Some(NameRequired) else None;
    var emailError :=
      if Trim(email) == "" then Some(EmailRequired)
      else if !MatchesEmailPattern(email) then Some(EmailInvalid)
      else None;
    Validation(FormErrors(nameError, emailError), nameError.None? && emailError.None?)
  }

  datatype Customer = Customer(name: string, email: string)

  /** What submitting the form does: record the errors, and submit the fields as typed if none. */
  datatype Submission = Submission(errors: FormErrors, submitted: Option<Customer>)

  function HandleSubmit(name: string, email: string): (r: Submission)
    ensures r.submitted.Some? <==> !IsBlank(name) && EmailShape(email)
    ensures r.submitted.Some? ==> r.submitted.value == Customer(name, email)
    ensures r.submitted.None? ==> r.errors.name.Some? || r.errors.email.Some?
    ensures r.errors == ValidateForm(name, email).errors
  {
    var v := ValidateForm(name, email);
    Submission(v.errors, if v.ok then Some(Customer(name, email)) else None)
  }

  /** The pattern sees the untrimmed text: a valid address with surrounding white space is "Invalid email address". */
  lemma UntrimmedEmailIsInvalid(name: string, e: string, pad: char)
    requires EmailShape(e) && IsSpace(pad)
    ensures ValidateForm(name, [pad] + e).errors.email == Some(EmailInvalid)
    ensures ValidateForm(name, e + [pad]).errors.email == Some(EmailInvalid)
  {
    var i := IndexOf(e, '@');
    assert ([pad] + e)[i + 1] == e[i];
    assert (e + [pad])[i] == e[i];
    assert ([pad] + e)[0] == pad;
    assert (e + [pad])[|e|] == pad;
  }
}
