/** Seerr requester identities: a user id together with the Seerr instance that issued it. */
module SeerrIdentity {
  import opened Basics

  const SEPARATOR := ':'

  datatype Identity = Identity(config: nat, user: nat)

  /** The qualified text form. */
  function Qualify(config: nat, user: nat): string {
    Decimal(config) + ([SEPARATOR] + Decimal(user))
  }

  function FirstSeparator(s: string): (i: nat)
    ensures i <= |s|
    ensures i < |s| ==> s[i] == SEPARATOR
    ensures SEPARATOR !in s[..i]
  {
    if s == [] || s[0] == SEPARATOR then 0
    else
      var i := 1 + FirstSeparator(s[1..]);
      assert s[..i] == [s[0]] + s[1..][..i - 1];
      i
  }

  /** Strict parsing: digits, one separator, digits, and nothing else but surrounding white space. */
  function Parse(text: string): Option<Identity> {
    var stripped := Strip(text);
    var i := FirstSeparator(stripped);
    if i == |stripped| then None
    else if !AllDigits(stripped[..i]) || !AllDigits(stripped[i + 1..]) then None
    else Some(Identity(ParseDecimal(stripped[..i]), ParseDecimal(stripped[i + 1..])))
  }

  /** The canonical text of an identity, or None if the text is not one. */
  function Normalize(text: string): Option<string> {
    match Parse(text)
    case None => None
    case Some(identity) => Some(Qualify(identity.config, identity.user))
  }

  lemma DigitsHaveNoSeparator(s: string)
    requires AllDigits(s)
    ensures SEPARATOR !in s
  {
    forall i | 0 <= i < |s| ensures s[i] != SEPARATOR { assert IsDigit(s[i]); }
  }

  lemma {:induction false} SplitsAtSeparator(a: string, b: string)
    requires SEPARATOR !in a
    ensures FirstSeparator(a + ([SEPARATOR] + b)) == |a|
  {
    if a != [] {
      SplitsAtSeparator(a[1..], b);
      assert (a + ([SEPARATOR] + b))[1..] == a[1..] + ([SEPARATOR] + b);
    }
  }

  lemma {:induction false} NoSeparatorFound(s: string)
    requires SEPARATOR !in s
    ensures FirstSeparator(s) == |s|
  {
    if s != [] { NoSeparatorFound(s[1..]); }
  }

  lemma ParseDigits(a: string, b: string, text: string)
    requires AllDigits(a) && AllDigits(b) && Strip(text) == a + ([SEPARATOR] + b)
    ensures Parse(text) == Some(Identity(ParseDecimal(a), ParseDecimal(b)))
  {
    DigitsHaveNoSeparator(a);
    SplitsAtSeparator(a, b);
    var s := a + ([SEPARATOR] + b);
    assert s[..|a|] == a && s[|a| + 1..] == b;
  }

  /**
   Exactly the texts of two digit runs around one separator parse, to the numbers these denote; bare
   ids never do.
   */
  lemma ParsesExactly(text: string, identity: Identity)
    ensures Parse(text) == Some(identity)
            <==> exists a, b :: AllDigits(a) && AllDigits(b) && Strip(text) == a + ([':'] + b)
                                && identity == Identity(ParseDecimal(a), ParseDecimal(b))
  {
    if Parse(text) == Some(identity) {
      var s := Strip(text);
      var i := FirstSeparator(s);
      SplitAt(s, i);
      assert AllDigits(s[..i]) && AllDigits(s[i + 1..]) && s == s[..i] + ([SEPARATOR] + s[i + 1..]);
    }
    if a, b :| AllDigits(a) && AllDigits(b) && Strip(text) == a + ([SEPARATOR] + b)
               && identity == Identity(ParseDecimal(a), ParseDecimal(b)) {
      ParseDigits(a, b, text);
    }
  }

  /** Parsing the printed form of a pair of ids returns that pair. */
  lemma ParseOfQualify(config: nat, user: nat)
    ensures Parse(Qualify(config, user)) == Some(Identity(config, user))
  {
    var a, b := Decimal(config), Decimal(user);
    var s := Qualify(config, user);
    assert s[0] == a[0] && IsDigit(a[0]);
    assert s[|s| - 1] == b[|b| - 1] && IsDigit(b[|b| - 1]);
    StripOfStripped(s);
    ParseDigits(a, b, s);
  }

  /** Normalising keeps the identity, and a normalised text is its own normal form. */
  lemma NormalizeIsCanonical(text: string)
    requires Parse(text).Some?
    ensures Parse(Normalize(text).value) == Parse(text)
    ensures Normalize(Normalize(text).value) == Normalize(text)
  {
    ParseOfQualify(Parse(text).value.config, Parse(text).value.user);
  }

  /** Two identities have the same normal form exactly when they are the same. */
  lemma NormalFormsIdentify(a: string, b: string)
    requires Parse(a).Some? && Parse(b).Some?
    ensures Normalize(a) == Normalize(b) <==> Parse(a) == Parse(b)
  {
    NormalizeIsCanonical(a);
    NormalizeIsCanonical(b);
  }

  /** A text without a separator is no identity. */
  lemma BareTextDoesNotParse(text: string)
    requires SEPARATOR !in text
    ensures Parse(text) == None
  {
    StripIsPart(text);
    NoSeparatorFound(Strip(text));
  }

  lemma StripStartIsPart(text: string)
    ensures forall c :: c in StripStart(text) ==> c in text
  {
    if text != [] && IsSpace(text[0]) { StripStartIsPart(text[1..]); }
  }

  lemma StripIsPart(text: string)
    ensures forall c :: c in Strip(text) ==> c in text
  {
    StripStartIsPart(text);
    assert Strip(text) <= StripStart(text);
  }
}
