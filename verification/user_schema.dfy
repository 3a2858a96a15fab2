/**
  The user document's validation: a required name of at most 60
  characters, a required e-mail address stored lower-cased and checked
  against `^[^\s@]+@[^\s@]+\.[^\s@]+$`, a required password of at least
  8 characters, and skill lists that default to empty. Password hashing is
  not part of this model.
*/
module UserSchema {
  import opened Wrappers
  import Text

  datatype Field = Name | Email | Password

  datatype Skills = Skills(earnedSkills: seq<string>, availableSkills: seq<string>)

  /** The fields as submitted; a missing field is `None`. */
  datatype UserInput = UserInput(
    name: Option<string>,
    email: Option<string>,
    password: Option<string>,
    earnedSkills: Option<seq<string>>,
    availableSkills: Option<seq<string>>)

  datatype UserDoc = UserDoc(name: string, email: string, password: string, skills: Skills)

  /** Either the stored document or the fields that failed, in schema order. */
  datatype Validated = Invalid(errors: seq<Field>) | Valid(doc: UserDoc)

  /** A required string is present and not empty. */
  predicate Present(v: Option<string>)
  {
    v.Some? && |v.value| > 0
  }

  predicate NameOk(name: Option<string>)
  {
    Present(name) && |name.value| <= 60
  }

  predicate PasswordOk(password: Option<string>)
  {
    Present(password) && |password.value| >= 8
  }

  /** `[^\s@]`. */
  predicate PlainChar(c: char)
  {
    !Text.IsSpace(c) && c != '@'
  }

  predicate Plain(s: string)
  {
    forall i | 0 <= i < |s| :: PlainChar(s[i])
  }

  /**
    What the pattern describes: a plain, non-empty local part, one `@`, and
    a plain domain with a `.` that has at least one character on each side.
  */
  predicate EmailShape(s: string)
  {
    exists i, k | 0 <= i < |s| && 0 <= k < |s| :: ShapeAt(s, i, k)
  }

  /** The shape with its `@` at `i` and the separating `.` at `k`. */
  predicate ShapeAt(s: string, i: int, k: int)
  {
    && 1 <= i && i + 2 <= k <= |s| - 2
    && s[i] == '@' && s[k] == '.' && Plain(s[..i]) && Plain(s[i + 1..])
  }

  /** The check as a matcher runs it: split at the first `@`, then look at each side. */
  predicate CheckEmail(s: string)
  {
    match Text.FirstIndexOf(s, '@')
    case None => false
    case Some(i) =>
      var domain := s[i + 1..];
      && i > 0 && Plain(s[..i]) && Plain(domain)
      && |domain| >= 3 && '.' in domain[1..|domain| - 1]
  }

  /** The matcher accepts exactly the strings of the described shape. */
  lemma CheckEmailIsShape(s: string)
    ensures CheckEmail(s) <==> EmailShape(s)
  {
    if CheckEmail(s) {
      CheckedHasShape(s);
    }
    if EmailShape(s) {
      var i, k :| ShapeAt(s, i, k);
      ShapeIsChecked(s, i, k);
    }
  }

  lemma CheckedHasShape(s: string)
    requires CheckEmail(s)
    ensures EmailShape(s)
  {
    var i := Text.FirstIndexOf(s, '@').value;
    var domain := s[i + 1..];
    var inner := domain[1..|domain| - 1];
    var m :| 0 <= m < |inner| && inner[m] == '.';
    var k := i + 2 + m;
    assert s[k] == '.';
    assert ShapeAt(s, i, k);
  }

  lemma ShapeIsChecked(s: string, i: int, k: int)
    requires ShapeAt(s, i, k)
    ensures CheckEmail(s)
  {
    assert forall j | 0 <= j < i :: s[j] != '@' by {
      forall j | 0 <= j < i ensures s[j] != '@' {
        assert s[..i][j] == s[j];
        assert PlainChar(s[..i][j]);
      }
    }
    var f := Text.FirstIndexOf(s, '@');
    assert f == Some(i);
    var domain := s[i + 1..];
    var inner := domain[1..|domain| - 1];
    assert inner[k - i - 2] == '.';
    assert '.' in inner;
  }

  /** A string of that shape has exactly one `@`. */
  lemma EmailShapeOneAt(s: string)
    requires EmailShape(s)
    ensures exists i | 0 <= i < |s| :: s[i] == '@' && forall j | 0 <= j < |s| && j != i :: s[j] != '@'
  {
    var i, k :| 0 <= i < |s| && 0 <= k < |s| && ShapeAt(s, i, k);
    assert Plain(s[..i]) && Plain(s[i + 1..]);
    forall j | 0 <= j < |s| && j != i ensures s[j] != '@' {
      if j < i {
        assert s[..i][j] == s[j];
      } else {
        assert s[i + 1..][j - i - 1] == s[j];
      }
    }
  }

  /** Lower-casing changes only letters, so it never changes whether an address has the shape. */
  lemma LowerKeepsEmailShape(s: string)
    ensures EmailShape(Text.Lower(s)) <==> EmailShape(s)
  {
    var t := Text.Lower(s);
    if EmailShape(s) {
      var i, k :| ShapeAt(s, i, k);
      LowerKeepsShapeAt(s, i, k);
    }
    if EmailShape(t) {
      var i, k :| ShapeAt(t, i, k);
      LowerKeepsShapeAt(s, i, k);
    }
  }

  lemma LowerKeepsShapeAt(s: string, i: int, k: int)
    ensures ShapeAt(Text.Lower(s), i, k) <==> ShapeAt(s, i, k)
  {
    var t := Text.Lower(s);
    if 1 <= i && i + 2 <= k <= |s| - 2 {
      LowerKeepsPlain(s, 0, i);
      LowerKeepsPlain(s, i + 1, |s|);
      assert t[..i] == t[0..i] && s[..i] == s[0..i];
      assert t[i + 1..] == t[i + 1..|s|] && s[i + 1..] == s[i + 1..|s|];
      assert t[i] == '@' <==> s[i] == '@';
      assert t[k] == '.' <==> s[k] == '.';
    }
  }

  lemma LowerKeepsPlain(s: string, a: nat, b: nat)
    requires a <= b <= |s|
    ensures Plain(Text.Lower(s)[a..b]) <==> Plain(s[a..b])
  {
    var t := Text.Lower(s);
    assert forall j | 0 <= j < b - a :: t[a..b][j] == Text.LowerChar(s[a..b][j]);
  }

  predicate EmailOk(email: Option<string>)
  {
    Present(email) && CheckEmail(Text.Lower(email.value))
  }

  predicate FieldOk(input: UserInput, f: Field)
  {
    match f
    case Name => NameOk(input.name)
    case Email => EmailOk(input.email)
    case Password => PasswordOk(input.password)
  }

  /**
    Validating a new user: every failing field is reported; otherwise the
    document holds the lower-cased e-mail address and the skill lists, each
    defaulting to empty.
  */
  function CreateUser(input: UserInput): (r: Validated)
    ensures r.Valid? <==> NameOk(input.name) && EmailOk(input.email) && PasswordOk(input.password)
    ensures r.Invalid? ==> |r.errors| > 0 && forall f :: f in r.errors <==> !FieldOk(input, f)
    ensures r.Valid? ==>
              && r.doc.name == input.name.value && |r.doc.name| <= 60
              && EmailShape(r.doc.email) && Text.Lower(r.doc.email) == r.doc.email
              && |r.doc.password| >= 8
              && r.doc.skills.earnedSkills == input.earnedSkills.GetOr([])
              && r.doc.skills.availableSkills == input.availableSkills.GetOr([])
  {
    var errors := FieldErrors(input);
    if |errors| > 0 then Invalid(errors)
    else
      assert FieldOk(input, Email);
      var email := Text.Lower(input.email.value);
      CheckEmailIsShape(email);
      LowerIdempotent(input.email.value);
      Valid(UserDoc(input.name.value, email, input.password.value,
                    Skills(input.earnedSkills.GetOr([]), input.availableSkills.GetOr([]))))
  }

  /** The failing fields, in the order name, e-mail, password. */
  function FieldErrors(input: UserInput): (errors: seq<Field>)
    ensures forall f :: f in errors <==> !FieldOk(input, f)
    ensures |errors| == 0 <==> NameOk(input.name) && EmailOk(input.email) && PasswordOk(input.password)
  {
    var errors := (if NameOk(input.name) then [] else [Name])
                  + (if EmailOk(input.email) then [] else [Email])
                  + (if PasswordOk(input.password) then [] else [Password]);
    assert forall f :: f in errors <==> !FieldOk(input, f);
    errors
  }

  lemma LowerIdempotent(s: string)
    ensures Text.Lower(Text.Lower(s)) == Text.Lower(s)
  {
    var t := Text.Lower(s);
    assert forall i | 0 <= i < |s| :: Text.LowerChar(t[i]) == t[i];
  }
}
