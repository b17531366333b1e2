/** The validation and normalisation of the player entry form
    (src/components/PlayerDataScreen.tsx). Submitting the form is a
    function from the typed name and phone to the two field errors and,
    when both are empty, the (name, phone) pair handed to `onSubmit`. */
module PlayerDataScreen {
  import opened Wrappers
  import GameService

  // ---------------------------------------------------------------------
  // Characters
  // ---------------------------------------------------------------------

  /** JavaScript's white space and line terminators: what `\s` matches and
      what `trim` removes. Within ASCII these are exactly tab, line feed,
      vertical tab, form feed, carriage return and space; no digit is one. */
  function IsWhitespace(c: char): (w: bool)
    ensures c < '\U{0080}' ==> (w <==> c == '\t' || c == '\n' || c == '\U{000B}' || c == '\U{000C}' || c == '\r' || c == ' ')
    ensures w ==> !IsAsciiDigit(c)
  {
    c == '\t' || c == '\n' || c == '\U{000B}' || c == '\U{000C}' || c == '\r'
    || c == ' ' || c == '\U{00A0}' || c == '\U{1680}'
    || ('\U{2000}' <= c <= '\U{200A}')
    || c == '\U{2028}' || c == '\U{2029}' || c == '\U{202F}' || c == '\U{205F}'
    || c == '\U{3000}' || c == '\U{FEFF}'
  }

  /** `[0-9]`. */
  predicate IsAsciiDigit(c: char) {
    '0' <= c <= '9'
  }

  ghost predicate AllWhitespace(s: string) {
    forall i :: 0 <= i < |s| ==> IsWhitespace(s[i])
  }

  // ---------------------------------------------------------------------
  // replace(/\s/g, "") and trim()
  // ---------------------------------------------------------------------

  /** `s.replace(/\s/g, "")`: every white-space character removed, wherever
      it stands, so none is left. */
  function StripWhitespace(s: string): (r: string)
    ensures |r| <= |s|
    ensures forall i :: 0 <= i < |r| ==> !IsWhitespace(r[i])
    ensures (forall i :: 0 <= i < |s| ==> !IsWhitespace(s[i])) ==> r == s
    decreases |s|
  {
    if s == [] then []
    else if IsWhitespace(s[0]) then StripWhitespace(s[1..])
    else [s[0]] + StripWhitespace(s[1..])
  }

  /** Stripping distributes over concatenation. */
  lemma {:induction false} StripAppend(a: string, b: string)
    ensures StripWhitespace(a + b) == StripWhitespace(a) + StripWhitespace(b)
    decreases |a|
  {
    if a == [] {
      assert a + b == b;
    } else {
      assert (a + b)[0] == a[0];
      assert (a + b)[1..] == a[1..] + b;
      StripAppend(a[1..], b);
    }
  }

  /** Stripping leaves nothing exactly when the string is all white space. */
  lemma {:induction false} StripEmptyIffBlank(s: string)
    ensures StripWhitespace(s) == [] <==> AllWhitespace(s)
    decreases |s|
  {
    if s != [] {
      StripEmptyIffBlank(s[1..]);
      if AllWhitespace(s[1..]) && IsWhitespace(s[0]) {
        assert AllWhitespace(s) by {
          forall i | 0 <= i < |s| ensures IsWhitespace(s[i]) {
            if i > 0 { assert s[i] == s[1..][i - 1]; }
          }
        }
      }
    }
  }

  /** Drops the white space at the front. */
  function TrimStart(s: string): (r: string)
    ensures |r| <= |s| && r == s[|s| - |r|..]
    ensures r == [] || !IsWhitespace(r[0])
    ensures forall i :: 0 <= i < |s| - |r| ==> IsWhitespace(s[i])
    decreases |s|
  {
    if s != [] && IsWhitespace(s[0]) then TrimStart(s[1..]) else s
  }

  /** Drops the white space at the back. */
  function TrimEnd(s: string): (r: string)
    ensures |r| <= |s| && r == s[..|r|]
    ensures r == [] || !IsWhitespace(r[|r| - 1])
    ensures forall i :: |r| <= i < |s| ==> IsWhitespace(s[i])
    decreases |s|
  {
    if s != [] && IsWhitespace(s[|s| - 1]) then TrimEnd(s[..|s| - 1]) else s
  }

  /** `s.trim()`: no longer than `s`, and neither starts nor ends with
      white space. */
  function Trim(s: string): (r: string)
    ensures |r| <= |s|
    ensures r == [] || (!IsWhitespace(r[0]) && !IsWhitespace(r[|r| - 1]))
  {
    var t := TrimStart(s);
    var r := TrimEnd(t);
    assert r == [] || r[0] == t[0];
    r
  }

  /** What `TrimStart` cuts off is all white space. */
  lemma TrimStartCutBlank(s: string)
    ensures AllWhitespace(s[..|s| - |TrimStart(s)|])
  {
    var i := |s| - |TrimStart(s)|;
    forall k | 0 <= k < i ensures IsWhitespace(s[..i][k]) {
      assert s[..i][k] == s[k];
    }
  }

  /** What `TrimEnd` cuts off is all white space. */
  lemma TrimEndCutBlank(t: string)
    ensures AllWhitespace(t[|TrimEnd(t)|..])
  {
    var n := |TrimEnd(t)|;
    forall k | 0 <= k < |t| - n ensures IsWhitespace(t[n..][k]) {
      assert t[n..][k] == t[n + k];
    }
  }

  /** The trimmed string is a piece of the original that neither starts nor
      ends with white space, and only white space was cut off around it. */
  lemma TrimIsCore(s: string)
    ensures exists i, j :: 0 <= i <= j <= |s| && Trim(s) == s[i..j]
                           && AllWhitespace(s[..i]) && AllWhitespace(s[j..])
  {
    var t := TrimStart(s);
    var r := TrimEnd(t);
    var i := |s| - |t|;
    var j := i + |r|;
    TrimStartCutBlank(s);
    TrimEndCutBlank(t);
    assert t == s[i..];
    assert r == s[i..j] by {
      assert r == t[..|r|];
    }
    assert s[j..] == t[|r|..];
  }

  /** A string trims to nothing exactly when it is all white space, which
      is also exactly when stripping leaves nothing. */
  lemma TrimEmptyIffBlank(s: string)
    ensures Trim(s) == [] <==> AllWhitespace(s)
    ensures Trim(s) == [] <==> StripWhitespace(s) == []
  {
    StripEmptyIffBlank(s);
  }

  // ---------------------------------------------------------------------
  // validatePhone and handleSubmit
  // ---------------------------------------------------------------------

  /** `/^[0-9]{10,15}$/`. A phone number has no white space in it, so it is
      its own stripped and its own trimmed form. */
  function IsPhoneNumber(d: string): (ok: bool)
    ensures ok ==> StripWhitespace(d) == d && Trim(d) == d
  {
    10 <= |d| <= 15 && forall i :: 0 <= i < |d| ==> IsAsciiDigit(d[i])
  }

  /** `validatePhone`: the phone, with all white space removed, is 10 to 15
      ASCII digits. A valid phone has at least 10 characters, and a phone
      without white space is valid exactly when it is such a number. */
  function ValidatePhone(phone: string): (ok: bool)
    ensures ok ==> |phone| >= 10
    ensures (forall i :: 0 <= i < |phone| ==> !IsWhitespace(phone[i])) ==> (ok <==> IsPhoneNumber(phone))
  {
    IsPhoneNumber(StripWhitespace(phone))
  }

  /** White space anywhere in a phone is ignored, not only at its ends. */
  lemma WhitespaceAnywhereIgnored(a: string, w: string, b: string)
    requires AllWhitespace(w)
    ensures ValidatePhone(a + w + b) == ValidatePhone(a + b)
    ensures StripWhitespace(a + w + b) == StripWhitespace(a + b)
  {
    assert StripWhitespace(a + w + b) == StripWhitespace(a + b) by {
      StripAppend(a + w, b);
      StripAppend(a, w);
      StripAppend(a, b);
      StripEmptyIffBlank(w);
    }
  }

  datatype NameError = NameOk | NameRequired
  datatype PhoneError = PhoneOk | PhoneRequired | PhoneInvalid

  /** The field errors shown, and what `onSubmit` receives if it is called. */
  datatype Submission = Submission(
    nameError: NameError,
    phoneError: PhoneError,
    submitted: Option<(string, string)>)

  /** `handleSubmit`: a blank name is a name error; a blank phone is the
      "required" error without consulting the format check, and a non-blank
      phone that fails it is the "invalid" error; `onSubmit` is called
      exactly when neither error is set, with the trimmed name and the
      white-space-free phone. */
  function HandleSubmit(name: string, phone: string): (s: Submission)
    ensures s.nameError == NameRequired <==> Trim(name) == []
    ensures s.phoneError == PhoneRequired <==> Trim(phone) == []
    ensures s.phoneError == PhoneInvalid <==> Trim(phone) != [] && !ValidatePhone(phone)
    ensures s.submitted.Some? <==> s.nameError == NameOk && s.phoneError == PhoneOk
    ensures s.submitted.Some? ==> s.submitted.value == (Trim(name), StripWhitespace(phone))
  {
    var nameError := if Trim(name) == [] then NameRequired else NameOk;
    var phoneError :=
      if Trim(phone) == [] then PhoneRequired
      else if !ValidatePhone(phone) then PhoneInvalid
      else PhoneOk;
    var submitted :=
      if nameError == NameOk && phoneError == PhoneOk
      then Some((Trim(name), StripWhitespace(phone)))
      else None;
    Submission(nameError, phoneError, submitted)
  }

  /** The form submits exactly when the name holds a non-white-space
      character and the phone is valid. */
  lemma SubmitAcceptsExactly(name: string, phone: string)
    ensures HandleSubmit(name, phone).submitted.Some? <==> !AllWhitespace(name) && ValidatePhone(phone)
  {
    TrimEmptyIffBlank(name);
    TrimEmptyIffBlank(phone);
    if ValidatePhone(phone) {
      assert StripWhitespace(phone) != [];
    }
  }

  /** What the form submits is a non-blank name with no white space at
      either end and a phone of 10 to 15 ASCII digits. */
  lemma SubmittedValuesWellFormed(name: string, phone: string)
    ensures HandleSubmit(name, phone).submitted.Some? ==>
      var n := HandleSubmit(name, phone).submitted.value.0;
      n != [] && !IsWhitespace(n[0]) && !IsWhitespace(n[|n| - 1])
    ensures HandleSubmit(name, phone).submitted.Some? ==>
      IsPhoneNumber(HandleSubmit(name, phone).submitted.value.1)
  {
  }

  /** A phone number is all digits, so it holds no `_`. */
  lemma NoUnderscoreInPhone(p: string)
    requires IsPhoneNumber(p)
    ensures '_' !in p
  {
  }

  /** Two submitted phones identify two players apart: the play-record keys
      of different (phone, ip) identities built from submitted phones
      differ. */
  lemma SubmittedIdentitiesDistinct(name1: string, phone1: string, ip1: string,
                                    name2: string, phone2: string, ip2: string)
    ensures var s1, s2 := HandleSubmit(name1, phone1), HandleSubmit(name2, phone2);
      s1.submitted.Some? && s2.submitted.Some? && (s1.submitted.value.1, ip1) != (s2.submitted.value.1, ip2) ==>
      GameService.LastPlayedKey(s1.submitted.value.1, ip1) != GameService.LastPlayedKey(s2.submitted.value.1, ip2)
  {
    var s1, s2 := HandleSubmit(name1, phone1), HandleSubmit(name2, phone2);
    if s1.submitted.Some? && s2.submitted.Some? {
      var p1, p2 := s1.submitted.value.1, s2.submitted.value.1;
      SubmittedValuesWellFormed(name1, phone1);
      SubmittedValuesWellFormed(name2, phone2);
      NoUnderscoreInPhone(p1);
      NoUnderscoreInPhone(p2);
      if GameService.LastPlayedKey(p1, ip1) == GameService.LastPlayedKey(p2, ip2) {
        GameService.LastPlayedKeyInjective(p1, ip1, p2, ip2);
      }
    }
  }
}
