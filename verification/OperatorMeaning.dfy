/** What each operator of a rule condition answers, told from the values and the library helpers alone. */
module OperatorMeaning {
  import opened Basics
  import opened RuleOperators

  // -------------------------------------------------------------------------------------------
  // Reading values

  /** `item` is one of the values listed: a list lists its items, and any other value but null itself. */
  predicate Lists(value: Value, item: Value) {
    if value.List? then item in value.items else !value.Null? && item == value
  }

  lemma AsListLists(value: Value, item: Value)
    ensures (item in AsList(value)) == Lists(value, item)
  {
  }

  /** `scalar` is what a scalar comparison reads of a value. */
  predicate IsScalarOf(value: Value, scalar: Value) {
    if !value.List? then scalar == value
    else if |value.items| == 0 then scalar == Null
    else scalar == value.items[0]
  }

  /** Nothing, blank text and lists of such values have no content; everything else has. */
  lemma ContentMeans(lib: Library, value: Value)
    ensures !HasContent(lib, value)
            <==> || value == Null
                 || (value.Text? && lib.blank(value.text))
                 || (value.List? && forall i :: 0 <= i < |value.items| ==> !HasContent(lib, value.items[i]))
  {
    if value.List? && HasContent(lib, value) {
      var item :| item in value.items && HasContent(lib, item);
      var i :| 0 <= i < |value.items| && value.items[i] == item;
    }
  }

  // -------------------------------------------------------------------------------------------
  // Which fields are special

  /** The kinds of field, field by field. */
  lemma KindsAre(field: Field)
    ensures KindOf(field).UserScopedField? <==> field in {UserWatchedDurationMinutes, UserWatchedPercent}
    ensures KindOf(field).PathField? <==> field == MediaPath
    ensures KindOf(field).FileNameField? <==> field == MediaFileName
    ensures KindOf(field).UsernameField?
            <==> field in {HistoryUsernames, PlaybackUsernames, FullyWatchedUsernames, PartialViewerUsernames}
    ensures KindOf(field).LanguageField? <==> field in {AudioLanguages, SubtitleLanguages, OriginalLanguage}
    ensures KindOf(field).CountryField? <==> field == OriginCountry
    ensures KindOf(field).PlainField? <==> field.OtherField?
  {
  }

  // -------------------------------------------------------------------------------------------
  // Scalars

  lemma ScalarIs(value: Value, scalar: Value)
    requires IsScalarOf(value, scalar)
    ensures FirstScalar(value) == scalar
  {
  }

  /** Unavailable data matches no operator at all. */
  lemma UnavailableMatchesNothing(lib: Library, operator: Operator, expected: Value, kind: FieldKind)
    ensures !MatchesOperator(lib, Unavailable, operator, expected, kind)
  {
  }

  lemma AvailableDispatch(lib: Library, actual: Value, operator: Operator, expected: Value, kind: FieldKind)
    requires !actual.Unavailable?
    ensures MatchesOperator(lib, actual, operator, expected, kind)
            == MatchesAvailable(lib, actual, operator, expected, kind)
  {
  }

  lemma OrderingDispatch(lib: Library, actual: Value, operator: Operator, expected: Value, kind: FieldKind,
                         left: Value, right: Value)
    requires !actual.Unavailable? && IsScalarOf(actual, left) && IsScalarOf(expected, right)
    requires FamilyOf(operator) == Ordering
    ensures MatchesOperator(lib, actual, operator, expected, kind)
            == (left != Null && right != Null && MatchesNumbers(operator, lib.number(left), lib.number(right)))
  {
    ScalarIs(actual, left);
    ScalarIs(expected, right);
    AvailableDispatch(lib, actual, operator, expected, kind);
  }

  /** The comparison an ordering operator stands for. */
  lemma NumbersMean(left: Option<real>, right: Option<real>)
    ensures MatchesNumbers(GreaterThan, left, right) == (left.Some? && right.Some? && left.value > right.value)
    ensures MatchesNumbers(GreaterOrEqual, left, right) == (left.Some? && right.Some? && left.value >= right.value)
    ensures MatchesNumbers(LessThan, left, right) == (left.Some? && right.Some? && left.value < right.value)
    ensures MatchesNumbers(LessOrEqual, left, right) == (left.Some? && right.Some? && left.value <= right.value)
    ensures !MatchesNumbers(Unsupported, left, right)
  {
  }

  lemma UnsupportedMatchesNothing(lib: Library, actual: Value, expected: Value, kind: FieldKind)
    ensures !MatchesOperator(lib, actual, Unsupported, expected, kind)
  {
    if !actual.Unavailable? {
      OrderingDispatch(lib, actual, Unsupported, expected, kind, FirstScalar(actual), FirstScalar(expected));
    }
  }

  /** The ordering operators compare the numbers of the two scalars, and match nothing without both. */
  lemma OrderingMeans(lib: Library, actual: Value, expected: Value, kind: FieldKind, left: Value, right: Value)
    requires !actual.Unavailable? && IsScalarOf(actual, left) && IsScalarOf(expected, right)
    ensures var numbers := left != Null && right != Null && lib.number(left).Some? && lib.number(right).Some?;
            && MatchesOperator(lib, actual, GreaterThan, expected, kind)
               == (numbers && lib.number(left).value > lib.number(right).value)
            && MatchesOperator(lib, actual, GreaterOrEqual, expected, kind)
               == (numbers && lib.number(left).value >= lib.number(right).value)
            && MatchesOperator(lib, actual, LessThan, expected, kind)
               == (numbers && lib.number(left).value < lib.number(right).value)
            && MatchesOperator(lib, actual, LessOrEqual, expected, kind)
               == (numbers && lib.number(left).value <= lib.number(right).value)
  {
    OrderingDispatch(lib, actual, GreaterThan, expected, kind, left, right);
    OrderingDispatch(lib, actual, GreaterOrEqual, expected, kind, left, right);
    OrderingDispatch(lib, actual, LessThan, expected, kind, left, right);
    OrderingDispatch(lib, actual, LessOrEqual, expected, kind, left, right);
    NumbersMean(lib.number(left), lib.number(right));
  }

  lemma DatingDispatch(lib: Library, actual: Value, operator: Operator, expected: Value, kind: FieldKind,
                       left: Value, right: Value)
    requires !actual.Unavailable? && IsScalarOf(actual, left) && IsScalarOf(expected, right)
    requires FamilyOf(operator) == Dating
    ensures MatchesOperator(lib, actual, operator, expected, kind)
            == MatchesDates(operator, lib.day(left), lib.day(right))
  {
    ScalarIs(actual, left);
    ScalarIs(expected, right);
    AvailableDispatch(lib, actual, operator, expected, kind);
  }

  /** The comparison a date operator stands for. */
  lemma DatesMean(left: Option<int>, right: Option<int>)
    ensures MatchesDates(Before, left, right) == (left.Some? && right.Some? && left.value < right.value)
    ensures MatchesDates(OnOrBefore, left, right) == (left.Some? && right.Some? && left.value <= right.value)
    ensures MatchesDates(After, left, right) == (left.Some? && right.Some? && left.value > right.value)
    ensures MatchesDates(OnOrAfter, left, right) == (left.Some? && right.Some? && left.value >= right.value)
  {
  }

  /** The date operators compare the days of the two scalars, and match nothing without both. */
  lemma DatingMeans(lib: Library, actual: Value, expected: Value, kind: FieldKind, left: Value, right: Value)
    requires !actual.Unavailable? && IsScalarOf(actual, left) && IsScalarOf(expected, right)
    ensures var days := lib.day(left).Some? && lib.day(right).Some?;
            && MatchesOperator(lib, actual, Before, expected, kind)
               == (days && lib.day(left).value < lib.day(right).value)
            && MatchesOperator(lib, actual, OnOrBefore, expected, kind)
               == (days && lib.day(left).value <= lib.day(right).value)
            && MatchesOperator(lib, actual, After, expected, kind)
               == (days && lib.day(left).value > lib.day(right).value)
            && MatchesOperator(lib, actual, OnOrAfter, expected, kind)
               == (days && lib.day(left).value >= lib.day(right).value)
  {
    DatingDispatch(lib, actual, Before, expected, kind, left, right);
    DatingDispatch(lib, actual, OnOrBefore, expected, kind, left, right);
    DatingDispatch(lib, actual, After, expected, kind, left, right);
    DatingDispatch(lib, actual, OnOrAfter, expected, kind, left, right);
    DatesMean(lib.day(left), lib.day(right));
  }

  lemma TruthMeans(lib: Library, actual: Value, expected: Value, kind: FieldKind)
    ensures MatchesOperator(lib, actual, IsTrue, expected, kind) <==> actual == Bool(true)
    ensures MatchesOperator(lib, actual, IsFalse, expected, kind) <==> actual == Bool(false)
  {
  }

  lemma PresenceDispatch(lib: Library, actual: Value, expected: Value, kind: FieldKind)
    requires !actual.Unavailable?
    ensures MatchesOperator(lib, actual, Exists, expected, kind) == IsPresent(lib, actual, kind)
    ensures MatchesOperator(lib, actual, NotExists, expected, kind) == !IsPresent(lib, actual, kind)
  {
    AvailableDispatch(lib, actual, Exists, expected, kind);
    AvailableDispatch(lib, actual, NotExists, expected, kind);
  }

  ghost predicate ListsLanguage(lib: Library, value: Value) {
    exists item :: Lists(value, item) && lib.language(item).Some?
  }

  lemma LanguageIsListed(lib: Library, value: Value)
    ensures NamesLanguage(lib, value) == ListsLanguage(lib, value)
  {
    forall item ensures (item in AsList(value)) == Lists(value, item) { AsListLists(value, item); }
  }

  /** `exists` asks for content, and for a language field for a known language. */
  lemma PresenceMeans(lib: Library, actual: Value, expected: Value, kind: FieldKind)
    requires !actual.Unavailable?
    ensures MatchesOperator(lib, actual, Exists, expected, kind)
            == if kind.LanguageField? then ListsLanguage(lib, actual) else HasContent(lib, actual)
    ensures MatchesOperator(lib, actual, NotExists, expected, kind)
            == !MatchesOperator(lib, actual, Exists, expected, kind)
  {
    PresenceDispatch(lib, actual, expected, kind);
    if kind.LanguageField? {
      NamesNonEmpty(lib, actual);
      LanguageIsListed(lib, actual);
    }
  }

  lemma EqualityOfScalars(lib: Library, actual: Value, operator: Operator, expected: Value, kind: FieldKind,
                          left: Value, right: Value)
    requires kind.PlainField? || kind.FileNameField? || kind.UserScopedField?
    requires !actual.Unavailable? && IsScalarOf(actual, left) && IsScalarOf(expected, right)
    requires FamilyOf(operator) == Equality
    ensures MatchesOperator(lib, actual, operator, expected, kind)
            == (SameScalar(lib, left, right, kind) == Some(operator.Equals?))
  {
    ScalarIs(actual, left);
    ScalarIs(expected, right);
    AvailableDispatch(lib, actual, operator, expected, kind);
    EqualityDispatch(lib, actual, operator, expected, kind);
  }

  /** Fields of one value: both scalars are there, and are the same number, or else the same text. */
  lemma ScalarEqualityMeans(lib: Library, actual: Value, expected: Value, kind: FieldKind, left: Value, right: Value)
    requires kind.PlainField? || kind.FileNameField? || kind.UserScopedField?
    requires !actual.Unavailable? && IsScalarOf(actual, left) && IsScalarOf(expected, right)
    ensures if left == Null || right == Null then
              && !MatchesOperator(lib, actual, Equals, expected, kind)
              && !MatchesOperator(lib, actual, NotEquals, expected, kind)
            else
              var numbers := lib.number(left).Some? && lib.number(right).Some?;
              var same := if numbers then lib.number(left) == lib.number(right)
                          else lib.normalize(left) == lib.normalize(right);
              && MatchesOperator(lib, actual, Equals, expected, kind) == same
              && MatchesOperator(lib, actual, NotEquals, expected, kind) == !same
  {
    EqualityOfScalars(lib, actual, Equals, expected, kind, left, right);
    EqualityOfScalars(lib, actual, NotEquals, expected, kind, left, right);
  }

  // -------------------------------------------------------------------------------------------
  // Lists

  /** Path `p` is `q` or lies below it. */
  predicate IsUnder(p: string, q: string) {
    p != "" && q != "" && |q| <= |p| && p[..|q|] == q && (|p| == |q| || p[|q|] == '/')
  }

  lemma PathPrefixMeans(lib: Library, actual: Value, expected: Value)
    ensures MatchesPathPrefix(lib, actual, expected) == IsUnder(lib.path(actual), lib.prefix(expected))
  {
    var p, q := lib.path(actual), lib.prefix(expected);
    if q + "/" <= p {
      assert p[..|q|] == q && p[|q|] == (q + "/")[|q|];
    }
    if IsUnder(p, q) && |p| > |q| {
      assert p[..|q| + 1] == q + "/";
    }
  }

  /** A value the comparison can use. */
  predicate IsUsable(lib: Library, kind: FieldKind, item: Value) {
    match kind
    case LanguageField => lib.language(item).Some?
    case CountryField => lib.country(item) != ""
    case _ => HasContent(lib, item)
  }

  /** Two usable values are the same as far as the field is concerned. */
  predicate IsSame(lib: Library, kind: FieldKind, a: Value, e: Value) {
    match kind
    case PathField => IsUnder(lib.path(Text(lib.path(a))), lib.prefix(Text(lib.prefix(e))))
    case UsernameField => lib.normalize(a) in lib.aliases(e)
    case LanguageField => lib.language(a) == lib.language(e)
    case CountryField => lib.country(a) == lib.country(e)
    case _ => lib.normalize(a) == lib.normalize(e)
  }

  /** `a` is a usable listed value that is the same as `e`. */
  predicate Finds(lib: Library, kind: FieldKind, actual: Value, e: Value, a: Value) {
    Lists(actual, a) && IsUsable(lib, kind, a) && IsSame(lib, kind, a, e)
  }

  /** The actual value lists something that is the same as `e`. */
  ghost predicate IsFound(lib: Library, kind: FieldKind, actual: Value, e: Value) {
    exists a :: Finds(lib, kind, actual, e, a)
  }

  /** A usable listed value. */
  predicate Offers(lib: Library, kind: FieldKind, value: Value, item: Value) {
    Lists(value, item) && IsUsable(lib, kind, item)
  }

  ghost predicate SomeUsable(lib: Library, kind: FieldKind, value: Value) {
    exists item :: Offers(lib, kind, value, item)
  }

  /** Whether a list comparison says anything. */
  ghost predicate IsAnswered(lib: Library, kind: FieldKind, actual: Value, expected: Value) {
    SomeUsable(lib, kind, expected) && (kind.LanguageField? || kind.CountryField? ==> SomeUsable(lib, kind, actual))
  }

  ghost predicate AnyFound(lib: Library, kind: FieldKind, actual: Value, expected: Value) {
    exists e :: Offers(lib, kind, expected, e) && IsFound(lib, kind, actual, e)
  }

  ghost predicate AllFound(lib: Library, kind: FieldKind, actual: Value, expected: Value) {
    forall e :: Offers(lib, kind, expected, e) ==> IsFound(lib, kind, actual, e)
  }

  lemma UsableIsListed(lib: Library, value: Value, kind: FieldKind)
    ensures SomeUsable(lib, kind, value)
            == match kind
               case LanguageField => NamesLanguage(lib, value)
               case CountryField => NamesCountry(lib, value)
               case _ => HasMember(lib, value)
  {
    forall item ensures (item in AsList(value)) == Lists(value, item) { AsListLists(value, item); }
    if SomeUsable(lib, kind, value) {
      var item :| Offers(lib, kind, value, item);
      assert item in AsList(value);
    }
    if item :| item in AsList(value) && IsUsable(lib, kind, item) {
      assert Offers(lib, kind, value, item);
    }
  }

  lemma AnsweredIsDecided(lib: Library, actual: Value, expected: Value, kind: FieldKind)
    ensures ListDecides(lib, actual, expected, kind) == IsAnswered(lib, kind, actual, expected)
  {
    UsableIsListed(lib, expected, kind);
    UsableIsListed(lib, actual, kind);
  }

  /** What a text comparison compares of a usable value. */
  function KeyOf(lib: Library, kind: FieldKind, item: Value): string
    requires IsUsable(lib, kind, item)
  {
    match kind
    case LanguageField => lib.language(item).value
    case CountryField => lib.country(item)
    case _ => lib.normalize(item)
  }

  /** A usable listed value whose compared text is `text`. */
  predicate IsKeyed(lib: Library, kind: FieldKind, value: Value, text: string, item: Value) {
    Offers(lib, kind, value, item) && KeyOf(lib, kind, item) == text
  }

  ghost predicate HasKey(lib: Library, kind: FieldKind, value: Value, text: string) {
    exists item :: IsKeyed(lib, kind, value, text, item)
  }

  lemma KeyIsCompared(lib: Library, kind: FieldKind, value: Value, item: Value)
    requires Offers(lib, kind, value, item)
    ensures KeyOf(lib, kind, item) in ComparedTexts(lib, kind, value)
  {
    AsListLists(value, item);
  }

  lemma ComparedHasKey(lib: Library, kind: FieldKind, value: Value, text: string)
    requires text in ComparedTexts(lib, kind, value)
    ensures HasKey(lib, kind, value, text)
  {
    var item :| item in AsList(value) && IsUsable(lib, kind, item) && KeyOf(lib, kind, item) == text;
    AsListLists(value, item);
    assert IsKeyed(lib, kind, value, text, item);
  }

  predicate ComparesTexts(kind: FieldKind) {
    !kind.PathField? && !kind.UsernameField?
  }

  lemma SameMeansSameKey(lib: Library, kind: FieldKind, a: Value, e: Value)
    requires ComparesTexts(kind) && IsUsable(lib, kind, a) && IsUsable(lib, kind, e)
    ensures IsSame(lib, kind, a, e) == (KeyOf(lib, kind, a) == KeyOf(lib, kind, e))
  {
  }

  lemma FoundByText(lib: Library, kind: FieldKind, actual: Value, e: Value)
    requires ComparesTexts(kind) && IsUsable(lib, kind, e)
    ensures IsFound(lib, kind, actual, e) == (KeyOf(lib, kind, e) in ComparedTexts(lib, kind, actual))
  {
    if IsFound(lib, kind, actual, e) {
      var a :| Finds(lib, kind, actual, e, a);
      SameMeansSameKey(lib, kind, a, e);
      KeyIsCompared(lib, kind, actual, a);
    }
    if KeyOf(lib, kind, e) in ComparedTexts(lib, kind, actual) {
      ComparedHasKey(lib, kind, actual, KeyOf(lib, kind, e));
      var a :| IsKeyed(lib, kind, actual, KeyOf(lib, kind, e), a);
      SameMeansSameKey(lib, kind, a, e);
      assert Finds(lib, kind, actual, e, a);
    }
  }

  lemma AnyTextFound(lib: Library, actual: Value, expected: Value, kind: FieldKind)
    requires ComparesTexts(kind)
    ensures (ComparedTexts(lib, kind, actual) * ComparedTexts(lib, kind, expected) != {})
            == AnyFound(lib, kind, actual, expected)
  {
    var actuals, expecteds := ComparedTexts(lib, kind, actual), ComparedTexts(lib, kind, expected);
    if AnyFound(lib, kind, actual, expected) {
      var e :| Offers(lib, kind, expected, e) && IsFound(lib, kind, actual, e);
      FoundByText(lib, kind, actual, e);
      KeyIsCompared(lib, kind, expected, e);
      assert KeyOf(lib, kind, e) in actuals * expecteds;
    }
    if text :| text in actuals * expecteds {
      ComparedHasKey(lib, kind, expected, text);
      var e :| IsKeyed(lib, kind, expected, text, e);
      FoundByText(lib, kind, actual, e);
    }
  }

  lemma ComparedIsFound(lib: Library, actual: Value, expected: Value, kind: FieldKind, e: Value)
    requires ComparesTexts(kind) && Offers(lib, kind, expected, e)
    requires ComparedTexts(lib, kind, expected) <= ComparedTexts(lib, kind, actual)
    ensures IsFound(lib, kind, actual, e)
  {
    FoundByText(lib, kind, actual, e);
    KeyIsCompared(lib, kind, expected, e);
  }

  lemma FoundIsCompared(lib: Library, actual: Value, expected: Value, kind: FieldKind, text: string)
    requires ComparesTexts(kind) && text in ComparedTexts(lib, kind, expected)
    requires AllFound(lib, kind, actual, expected)
    ensures text in ComparedTexts(lib, kind, actual)
  {
    ComparedHasKey(lib, kind, expected, text);
    var e :| IsKeyed(lib, kind, expected, text, e);
    FoundByText(lib, kind, actual, e);
  }

  lemma AllTextsFound(lib: Library, actual: Value, expected: Value, kind: FieldKind)
    requires ComparesTexts(kind)
    ensures (ComparedTexts(lib, kind, expected) <= ComparedTexts(lib, kind, actual))
            == AllFound(lib, kind, actual, expected)
  {
    var actuals, expecteds := ComparedTexts(lib, kind, actual), ComparedTexts(lib, kind, expected);
    if expecteds <= actuals {
      forall e | Offers(lib, kind, expected, e)
        ensures IsFound(lib, kind, actual, e)
      {
        ComparedIsFound(lib, actual, expected, kind, e);
      }
    }
    if AllFound(lib, kind, actual, expected) {
      forall text | text in expecteds
        ensures text in actuals
      {
        FoundIsCompared(lib, actual, expected, kind, text);
      }
    }
  }

  lemma TextFactsMean(lib: Library, actual: Value, expected: Value, kind: FieldKind, failClosed: bool)
    requires ComparesTexts(kind)
    ensures var facts := TextFacts(ComparedTexts(lib, kind, actual), ComparedTexts(lib, kind, expected), failClosed);
            facts.Facts? ==> && facts.hasAny == AnyFound(lib, kind, actual, expected)
                             && facts.hasAll == AllFound(lib, kind, actual, expected)
  {
    AnyTextFound(lib, actual, expected, kind);
    AllTextsFound(lib, actual, expected, kind);
  }

  lemma ContentsAre(lib: Library, value: Value, kind: FieldKind, item: Value)
    requires kind.PathField? || kind.UsernameField?
    ensures (item in Contents(lib, value)) == Offers(lib, kind, value, item)
  {
    AsListLists(value, item);
  }

  ghost predicate SomePathMatches(lib: Library, actuals: set<Value>, e: Value) {
    exists a :: a in actuals && PathsMatch(lib, a, e)
  }

  lemma FoundByPath(lib: Library, actual: Value, e: Value)
    ensures IsFound(lib, PathField, actual, e) == SomePathMatches(lib, Contents(lib, actual), e)
  {
    forall a ensures Finds(lib, PathField, actual, e, a) == (a in Contents(lib, actual) && PathsMatch(lib, a, e)) {
      ContentsAre(lib, actual, PathField, a);
      PathPrefixMeans(lib, Text(lib.path(a)), Text(lib.prefix(e)));
    }
  }

  lemma FoundByName(lib: Library, actual: Value, e: Value)
    ensures IsFound(lib, UsernameField, actual, e)
            == AliasesMeet(lib, ComparedTexts(lib, UsernameField, actual), e)
  {
    var names := ComparedTexts(lib, UsernameField, actual);
    if IsFound(lib, UsernameField, actual, e) {
      var a :| Finds(lib, UsernameField, actual, e, a);
      KeyIsCompared(lib, UsernameField, actual, a);
    }
    if alias :| alias in lib.aliases(e) && alias in names {
      ComparedHasKey(lib, UsernameField, actual, alias);
      var a :| IsKeyed(lib, UsernameField, actual, alias, a);
      assert Finds(lib, UsernameField, actual, e, a);
    }
  }

  lemma AnyPathFound(lib: Library, actual: Value, expected: Value)
    ensures (exists a, e :: a in Contents(lib, actual) && e in Contents(lib, expected) && PathsMatch(lib, a, e))
            == AnyFound(lib, PathField, actual, expected)
  {
    if a, e :| a in Contents(lib, actual) && e in Contents(lib, expected) && PathsMatch(lib, a, e) {
      ContentsAre(lib, expected, PathField, e);
      FoundByPath(lib, actual, e);
    }
    if AnyFound(lib, PathField, actual, expected) {
      var e :| Offers(lib, PathField, expected, e) && IsFound(lib, PathField, actual, e);
      ContentsAre(lib, expected, PathField, e);
      FoundByPath(lib, actual, e);
    }
  }

  lemma AllPathsFound(lib: Library, actual: Value, expected: Value)
    ensures (forall e :: e in Contents(lib, expected) ==> SomePathMatches(lib, Contents(lib, actual), e))
            == AllFound(lib, PathField, actual, expected)
  {
    forall e
      ensures (e in Contents(lib, expected)) == Offers(lib, PathField, expected, e)
      ensures IsFound(lib, PathField, actual, e) == SomePathMatches(lib, Contents(lib, actual), e)
    {
      ContentsAre(lib, expected, PathField, e);
      FoundByPath(lib, actual, e);
    }
  }

  lemma PathFactsMean(lib: Library, actual: Value, expected: Value)
    ensures var facts := PathFacts(lib, Contents(lib, actual), Contents(lib, expected));
            facts.Facts? ==> facts.hasAny == AnyFound(lib, PathField, actual, expected)
                             && facts.hasAll == AllFound(lib, PathField, actual, expected)
  {
    AnyPathFound(lib, actual, expected);
    AllPathsFound(lib, actual, expected);
  }

  lemma UsernameFactsMean(lib: Library, actual: Value, expected: Value)
    ensures var facts := UsernameFacts(lib, ComparedTexts(lib, UsernameField, actual), Contents(lib, expected));
            facts.Facts? ==> facts.hasAny == AnyFound(lib, UsernameField, actual, expected)
                             && facts.hasAll == AllFound(lib, UsernameField, actual, expected)
  {
    forall e ensures (e in Contents(lib, expected)) == Offers(lib, UsernameField, expected, e) {
      ContentsAre(lib, expected, UsernameField, e);
    }
    forall e ensures IsFound(lib, UsernameField, actual, e)
                     == AliasesMeet(lib, ComparedTexts(lib, UsernameField, actual), e) {
      FoundByName(lib, actual, e);
    }
  }

  /** What a list comparison establishes, whatever the kind of field. */
  lemma FactsMean(lib: Library, actual: Value, expected: Value, kind: FieldKind)
    requires IsAnswered(lib, kind, actual, expected)
    ensures FactsFor(lib, actual, expected, kind)
            == Facts(AnyFound(lib, kind, actual, expected), AllFound(lib, kind, actual, expected))
  {
    AnsweredIsDecided(lib, actual, expected, kind);
    FactsDecide(lib, actual, expected, kind);
    match kind
    case PathField => PathFactsMean(lib, actual, expected);
    case UsernameField => UsernameFactsMean(lib, actual, expected);
    case LanguageField => TextFactsMean(lib, actual, expected, kind, true);
    case CountryField => TextFactsMean(lib, actual, expected, kind, true);
    case _ => TextFactsMean(lib, actual, expected, kind, false);
  }

  lemma ListDispatch(lib: Library, actual: Value, operator: Operator, expected: Value, kind: FieldKind)
    requires !actual.Unavailable? && FamilyOf(operator) == Listing
    ensures MatchesOperator(lib, actual, operator, expected, kind)
            == ListResult(operator, FactsFor(lib, actual, expected, kind))
  {
    AvailableDispatch(lib, actual, operator, expected, kind);
    ListingDispatch(lib, actual, operator, expected, kind);
  }

  /** Which side of a list comparison an operator stands for. */
  lemma ResultsMean(facts: ListFacts)
    ensures ListResult(In, facts) == ListResult(ContainsAny, facts) == (facts.Facts? && facts.hasAny)
    ensures ListResult(NotIn, facts) == ListResult(NotContainsAny, facts) == (facts.Facts? && !facts.hasAny)
    ensures ListResult(ContainsAll, facts) == (facts.Facts? && facts.hasAll)
    ensures ListResult(NotContainsAll, facts) == (facts.Facts? && !facts.hasAll)
  {
  }

  /**
   The list operators: `in` and `contains_any` match when some usable expected value is found among
   the actual ones, `contains_all` when each is, their negations when not, and none of them without
   the usable values an answer needs.
   */
  lemma ListOperatorsMean(lib: Library, actual: Value, expected: Value, kind: FieldKind)
    requires !actual.Unavailable?
    ensures var answered := IsAnswered(lib, kind, actual, expected);
            var any, all := AnyFound(lib, kind, actual, expected), AllFound(lib, kind, actual, expected);
            && MatchesOperator(lib, actual, In, expected, kind) == (answered && any)
            && MatchesOperator(lib, actual, ContainsAny, expected, kind) == (answered && any)
            && MatchesOperator(lib, actual, NotIn, expected, kind) == (answered && !any)
            && MatchesOperator(lib, actual, NotContainsAny, expected, kind) == (answered && !any)
            && MatchesOperator(lib, actual, ContainsAll, expected, kind) == (answered && all)
            && MatchesOperator(lib, actual, NotContainsAll, expected, kind) == (answered && !all)
  {
    ListDispatch(lib, actual, In, expected, kind);
    ListDispatch(lib, actual, ContainsAny, expected, kind);
    ListDispatch(lib, actual, NotIn, expected, kind);
    ListDispatch(lib, actual, NotContainsAny, expected, kind);
    ListDispatch(lib, actual, ContainsAll, expected, kind);
    ListDispatch(lib, actual, NotContainsAll, expected, kind);
    ResultsMean(FactsFor(lib, actual, expected, kind));
    AnsweredIsDecided(lib, actual, expected, kind);
    FactsDecide(lib, actual, expected, kind);
    if IsAnswered(lib, kind, actual, expected) {
      FactsMean(lib, actual, expected, kind);
    }
  }

  lemma ListEqualityDispatch(lib: Library, actual: Value, operator: Operator, expected: Value, kind: FieldKind)
    requires FamilyOf(operator) == Equality && ComparesAsList(kind)
    ensures MatchesEquality(lib, actual, operator, expected, kind)
            == ListResult(if operator.Equals? then ContainsAny else NotContainsAny,
                          FactsFor(lib, actual, expected, kind))
  {
  }

  lemma EqualityIsContainment(lib: Library, actual: Value, operator: Operator, expected: Value, kind: FieldKind)
    requires FamilyOf(operator) == Equality && ComparesAsList(kind) && !actual.Unavailable?
    ensures MatchesOperator(lib, actual, operator, expected, kind)
            == MatchesOperator(lib, actual, if operator.Equals? then ContainsAny else NotContainsAny, expected, kind)
  {
    AvailableDispatch(lib, actual, operator, expected, kind);
    EqualityDispatch(lib, actual, operator, expected, kind);
    ListEqualityDispatch(lib, actual, operator, expected, kind);
    ListDispatch(lib, actual, if operator.Equals? then ContainsAny else NotContainsAny, expected, kind);
  }

  /** Fields of several values: `equals` is `contains_any`, and `not_equals` its negation. */
  lemma ListEqualityMeans(lib: Library, actual: Value, expected: Value, kind: FieldKind)
    requires !kind.PlainField? && !kind.FileNameField? && !kind.UserScopedField?
    requires !actual.Unavailable?
    ensures MatchesOperator(lib, actual, Equals, expected, kind)
            == MatchesOperator(lib, actual, ContainsAny, expected, kind)
    ensures MatchesOperator(lib, actual, NotEquals, expected, kind)
            == MatchesOperator(lib, actual, NotContainsAny, expected, kind)
  {
    EqualityIsContainment(lib, actual, Equals, expected, kind);
    EqualityIsContainment(lib, actual, NotEquals, expected, kind);
  }

  // -------------------------------------------------------------------------------------------
  // Patterns and substrings

  /** A usable pattern of the condition. */
  predicate IsPattern(lib: Library, expected: Value, p: Value) {
    Lists(expected, p) && HasContent(lib, p) && lib.pattern(p).Some?
  }

  /** The text of an actual value that patterns are matched with. */
  function MatchedText(lib: Library, kind: FieldKind, v: Value): string {
    if kind.PathField? || kind.FileNameField? then lib.path(v) else lib.normalize(v)
  }

  /** A usable pattern matches a value with content. */
  predicate PatternMatches(lib: Library, kind: FieldKind, actual: Value, expected: Value, p: Value, v: Value) {
    IsPattern(lib, expected, p) && Lists(actual, v) && HasContent(lib, v)
    && lib.pattern(p).value(MatchedText(lib, kind, v))
  }

  lemma {:induction false} CompiledAre(lib: Library, items: seq<Value>, f: string -> bool)
    ensures f in CompiledPatterns(lib, items)
            <==> exists p :: p in items && HasContent(lib, p) && lib.pattern(p) == Some(f)
  {
    if items != [] {
      CompiledAre(lib, items[1..], f);
      assert items == [items[0]] + items[1..];
    }
  }

  ghost predicate SomePattern(lib: Library, expected: Value) {
    exists p :: IsPattern(lib, expected, p)
  }

  ghost predicate SomePatternMatches(lib: Library, kind: FieldKind, actual: Value, expected: Value) {
    exists p, v :: PatternMatches(lib, kind, actual, expected, p, v)
  }

  lemma UsablePatternIsSome(lib: Library, expected: Value)
    ensures HasUsablePattern(lib, expected) == SomePattern(lib, expected)
  {
    forall p ensures (p in AsList(expected)) == Lists(expected, p) { AsListLists(expected, p); }
    if p :| p in AsList(expected) && HasContent(lib, p) && lib.pattern(p).Some? {
      assert IsPattern(lib, expected, p);
    }
  }

  lemma PatternsCompiled(lib: Library, expected: Value)
    ensures (CompiledPatterns(lib, AsList(expected)) != []) == SomePattern(lib, expected)
  {
    CompiledPatternsNonEmpty(lib, AsList(expected));
    UsablePatternIsSome(lib, expected);
  }

  lemma PatternIsCompiled(lib: Library, expected: Value, p: Value) returns (i: nat)
    requires IsPattern(lib, expected, p)
    ensures i < |CompiledPatterns(lib, AsList(expected))|
    ensures CompiledPatterns(lib, AsList(expected))[i] == lib.pattern(p).value
  {
    AsListLists(expected, p);
    CompiledAre(lib, AsList(expected), lib.pattern(p).value);
    i :| i < |CompiledPatterns(lib, AsList(expected))|
         && CompiledPatterns(lib, AsList(expected))[i] == lib.pattern(p).value;
  }

  /** A usable pattern that matches is among the compiled ones. */
  lemma MatchIsCompiled(lib: Library, kind: FieldKind, actual: Value, expected: Value, p: Value, v: Value)
    requires PatternMatches(lib, kind, actual, expected, p, v)
    ensures AnyMatches(lib, CompiledPatterns(lib, AsList(expected)), Contents(lib, actual), kind)
  {
    var compiled := CompiledPatterns(lib, AsList(expected));
    var i := PatternIsCompiled(lib, expected, p);
    AsListLists(actual, v);
    assert v in Contents(lib, actual);
    assert compiled[i](PatternText(lib, kind, v));
  }

  /** A compiled pattern that matches is a usable one. */
  lemma CompiledIsMatch(lib: Library, kind: FieldKind, actual: Value, expected: Value, i: nat, v: Value)
    requires i < |CompiledPatterns(lib, AsList(expected))| && v in Contents(lib, actual)
    requires CompiledPatterns(lib, AsList(expected))[i](PatternText(lib, kind, v))
    ensures SomePatternMatches(lib, kind, actual, expected)
  {
    var f := CompiledPatterns(lib, AsList(expected))[i];
    CompiledAre(lib, AsList(expected), f);
    var p :| p in AsList(expected) && HasContent(lib, p) && lib.pattern(p) == Some(f);
    AsListLists(expected, p);
    AsListLists(actual, v);
    assert PatternMatches(lib, kind, actual, expected, p, v);
  }

  lemma AnyMatchesIs(lib: Library, actual: Value, expected: Value, kind: FieldKind)
    ensures AnyMatches(lib, CompiledPatterns(lib, AsList(expected)), Contents(lib, actual), kind)
            == SomePatternMatches(lib, kind, actual, expected)
  {
    var compiled := CompiledPatterns(lib, AsList(expected));
    if AnyMatches(lib, compiled, Contents(lib, actual), kind) {
      var v, i :| v in Contents(lib, actual) && 0 <= i < |compiled| && compiled[i](PatternText(lib, kind, v));
      CompiledIsMatch(lib, kind, actual, expected, i, v);
    }
    if SomePatternMatches(lib, kind, actual, expected) {
      var p, v :| PatternMatches(lib, kind, actual, expected, p, v);
      MatchIsCompiled(lib, kind, actual, expected, p, v);
    }
  }

  lemma PatternsMean(lib: Library, actual: Value, expected: Value, kind: FieldKind)
    ensures MatchesAnyPattern(lib, actual, expected, kind)
            == if SomePattern(lib, expected) then Some(SomePatternMatches(lib, kind, actual, expected)) else None
  {
    PatternsCompiled(lib, expected);
    AnyMatchesIs(lib, actual, expected, kind);
  }

  /** The pattern operators: some usable pattern matches some value, or none does; neither without a usable pattern. */
  lemma RegexMeans(lib: Library, actual: Value, expected: Value, kind: FieldKind)
    requires !actual.Unavailable?
    ensures MatchesOperator(lib, actual, MatchesAnyRegex, expected, kind)
            == (SomePattern(lib, expected) && SomePatternMatches(lib, kind, actual, expected))
    ensures MatchesOperator(lib, actual, NotMatchesAnyRegex, expected, kind)
            == (SomePattern(lib, expected) && !SomePatternMatches(lib, kind, actual, expected))
  {
    AvailableDispatch(lib, actual, MatchesAnyRegex, expected, kind);
    AvailableDispatch(lib, actual, NotMatchesAnyRegex, expected, kind);
    PatternsMean(lib, actual, expected, kind);
  }

  /** The haystack reads the needle at this position. */
  predicate OccursAt(needle: string, haystack: string, i: nat) {
    i + |needle| <= |haystack| && forall k :: 0 <= k < |needle| ==> haystack[i + k] == needle[k]
  }

  ghost predicate OccursIn(needle: string, haystack: string) {
    exists i: nat :: OccursAt(needle, haystack, i)
  }

  lemma SubstringOccurs(needle: string, haystack: string)
    ensures IsSubstring(needle, haystack) == OccursIn(needle, haystack)
  {
    if IsSubstring(needle, haystack) {
      var before, after :| 0 <= before <= after <= |haystack| && haystack[before..after] == needle;
      assert OccursAt(needle, haystack, before);
    }
    if i: nat :| OccursAt(needle, haystack, i) {
      assert haystack[i..i + |needle|] == needle;
    }
  }

  /** A listed expected value with content occurs in a listed actual one, as texts. */
  ghost predicate ValueOccurs(lib: Library, actual: Value, expected: Value, a: Value, e: Value) {
    && Offers(lib, PlainField, actual, a) && Offers(lib, PlainField, expected, e)
    && OccursIn(lib.normalize(e), lib.normalize(a))
  }

  ghost predicate SomeOccurs(lib: Library, actual: Value, expected: Value) {
    exists a, e :: ValueOccurs(lib, actual, expected, a, e)
  }

  lemma NeedlesAreUsable(lib: Library, expected: Value)
    ensures (ComparedTexts(lib, PlainField, expected) != {}) == SomeUsable(lib, PlainField, expected)
  {
    UsableIsListed(lib, expected, PlainField);
    ContentsNonEmpty(lib, expected, PlainField);
  }

  lemma OccurrenceIsFound(lib: Library, actual: Value, expected: Value, a: Value, e: Value)
    requires ValueOccurs(lib, actual, expected, a, e)
    ensures FindsSubstring(lib, actual, expected) == Some(true)
  {
    KeyIsCompared(lib, PlainField, actual, a);
    KeyIsCompared(lib, PlainField, expected, e);
    SubstringOccurs(lib.normalize(e), lib.normalize(a));
  }

  lemma FoundIsOccurrence(lib: Library, actual: Value, expected: Value, h: string, n: string)
    requires h in ComparedTexts(lib, PlainField, actual) && n in ComparedTexts(lib, PlainField, expected)
    requires IsSubstring(n, h)
    ensures SomeOccurs(lib, actual, expected)
  {
    ComparedHasKey(lib, PlainField, actual, h);
    ComparedHasKey(lib, PlainField, expected, n);
    SubstringOccurs(n, h);
    var a :| IsKeyed(lib, PlainField, actual, h, a);
    var e :| IsKeyed(lib, PlainField, expected, n, e);
    assert ValueOccurs(lib, actual, expected, a, e);
  }

  lemma SubstringsMean(lib: Library, actual: Value, expected: Value)
    ensures FindsSubstring(lib, actual, expected)
            == if SomeUsable(lib, PlainField, expected) then Some(SomeOccurs(lib, actual, expected)) else None
  {
    var needles, haystacks := ComparedTexts(lib, PlainField, expected), ComparedTexts(lib, PlainField, actual);
    NeedlesAreUsable(lib, expected);
    if SomeOccurs(lib, actual, expected) {
      var a, e :| ValueOccurs(lib, actual, expected, a, e);
      OccurrenceIsFound(lib, actual, expected, a, e);
    } else if FindsSubstring(lib, actual, expected) == Some(true) {
      var h, n :| h in haystacks && n in needles && IsSubstring(n, h);
      FoundIsOccurrence(lib, actual, expected, h, n);
    }
  }

  /** The substring operators: some expected text occurs in some actual one, or none does; neither without a text. */
  lemma SubstringMeans(lib: Library, actual: Value, expected: Value, kind: FieldKind)
    requires !actual.Unavailable?
    ensures MatchesOperator(lib, actual, ContainsSubstring, expected, kind)
            == (SomeUsable(lib, PlainField, expected) && SomeOccurs(lib, actual, expected))
    ensures MatchesOperator(lib, actual, NotContainsSubstring, expected, kind)
            == (SomeUsable(lib, PlainField, expected) && !SomeOccurs(lib, actual, expected))
  {
    AvailableDispatch(lib, actual, ContainsSubstring, expected, kind);
    AvailableDispatch(lib, actual, NotContainsSubstring, expected, kind);
    SubstringsMean(lib, actual, expected);
  }
}
