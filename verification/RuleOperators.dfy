/**
 Rule values and the comparison operators of a single rule condition.

 The text, path, language, number, date and pattern helpers are not fixed here: every function
 takes a `Library` holding them, so what is proved holds whatever those helpers compute.
 */
module RuleOperators {
  import opened Basics

  /** The rule fields some operator treats specially, named as in the rule catalogue. */
  datatype Field =
    | UserWatchedDurationMinutes | UserWatchedPercent
    | MediaPath | MediaFileName
    | HistoryUsernames | PlaybackUsernames | FullyWatchedUsernames | PartialViewerUsernames
    | AudioLanguages | SubtitleLanguages | OriginalLanguage
    | OriginCountry
    | ArrTags | ArrMovieIds | ArrSeriesIds | FavoritesUsernames
    | VideoCodecFamily | AudioCodecFamily
    | PlexGenres | JellyfinGenres | EmbyGenres
    | OtherField(name: string)

  /** The field sets the operators branch on. */
  datatype FieldKind =
    | UserScopedField | PathField | FileNameField | UsernameField
    | LanguageField | CountryField | MultiTextField | PlainField

  function KindOf(field: Field): FieldKind {
    match field
    case UserWatchedDurationMinutes | UserWatchedPercent => UserScopedField
    case MediaPath => PathField
    case MediaFileName => FileNameField
    case HistoryUsernames | PlaybackUsernames | FullyWatchedUsernames | PartialViewerUsernames => UsernameField
    case AudioLanguages | SubtitleLanguages | OriginalLanguage => LanguageField
    case OriginCountry => CountryField
    case ArrTags | ArrMovieIds | ArrSeriesIds | FavoritesUsernames => MultiTextField
    case VideoCodecFamily | AudioCodecFamily | PlexGenres | JellyfinGenres | EmbyGenres => MultiTextField
    case OtherField(_) => PlainField
  }

  datatype Operator =
    | Exists | NotExists | IsTrue | IsFalse
    | MatchesAnyRegex | NotMatchesAnyRegex
    | In | NotIn | ContainsAny | NotContainsAny | ContainsAll | NotContainsAll
    | ContainsSubstring | NotContainsSubstring
    | Before | OnOrBefore | After | OnOrAfter
    | Equals | NotEquals
    | GreaterThan | GreaterOrEqual | LessThan | LessOrEqual
    | Unsupported

  /** Operators that are evaluated the same way. */
  datatype Family = Presence | Truth | Regex | Listing | Substring | Dating | Equality | Ordering

  function FamilyOf(operator: Operator): Family {
    match operator
    case Exists | NotExists => Presence
    case IsTrue | IsFalse => Truth
    case MatchesAnyRegex | NotMatchesAnyRegex => Regex
    case In | NotIn | ContainsAny | NotContainsAny | ContainsAll | NotContainsAll => Listing
    case ContainsSubstring | NotContainsSubstring => Substring
    case Before | OnOrBefore | After | OnOrAfter => Dating
    case Equals | NotEquals => Equality
    case GreaterThan | GreaterOrEqual | LessThan | LessOrEqual | Unsupported => Ordering
  }

  /**
   A context value or the value a condition compares with. `Unavailable` marks data that could
   not be fetched; it is different from `Null`, which is a known absence.
   */
  datatype Value =
    | Unavailable
    | Null
    | Bool(flag: bool)
    | Number(number: real)
    | Text(text: string)
    | Moment(seconds: int)
    | List(items: seq<Value>)
    | PerUser(totals: map<string, real>)
    | UserAmount(usernames: Value, amount: Value)

  /** The text and conversion helpers the operators call. */
  datatype Library = Library(
    blank: string -> bool,
    normalize: Value -> string,
    account: Value -> string,
    path: Value -> string,
    prefix: Value -> string,
    language: Value -> Option<string>,
    country: Value -> string,
    aliases: Value -> seq<string>,
    number: Value -> Option<real>,
    day: Value -> Option<int>,
    pattern: Value -> Option<string -> bool>
  )

  predicate HasContent(lib: Library, value: Value) {
    match value
    case Null => false
    case Text(text) => !lib.blank(text)
    case List(items) => exists item :: item in items && HasContent(lib, item)
    case _ => true
  }

  function AsList(value: Value): seq<Value> {
    match value
    case Null => []
    case List(items) => items
    case _ => [value]
  }

  function FirstScalar(value: Value): Value {
    match value
    case List(items) => if items != [] then items[0] else Null
    case _ => value
  }

  /** The members of a value that carry content. */
  function Contents(lib: Library, value: Value): set<Value> {
    set item | item in AsList(value) && HasContent(lib, item)
  }

  /** The texts a list operator compares for a field that is not a path. */
  function ComparedTexts(lib: Library, kind: FieldKind, value: Value): set<string> {
    match kind
    case LanguageField => set item | item in AsList(value) && lib.language(item).Some? :: lib.language(item).value
    case CountryField => set item | item in AsList(value) && lib.country(item) != "" :: lib.country(item)
    case _ => set item | item in AsList(value) && HasContent(lib, item) :: lib.normalize(item)
  }

  predicate MatchesPathPrefix(lib: Library, actual: Value, expected: Value) {
    var actualPath := lib.path(actual);
    var expectedPath := lib.prefix(expected);
    && actualPath != "" && expectedPath != ""
    && (actualPath == expectedPath || expectedPath + "/" <= actualPath)
  }

  predicate PathsMatch(lib: Library, actual: Value, expected: Value) {
    MatchesPathPrefix(lib, Text(lib.path(actual)), Text(lib.prefix(expected)))
  }

  /** Some alias of the expected account is among the actual names. */
  predicate AliasesMeet(lib: Library, names: set<string>, expected: Value) {
    exists alias :: alias in lib.aliases(expected) && alias in names
  }

  /** What a list comparison established: nothing, or whether any and all expected values were found. */
  datatype ListFacts = Undecided | Facts(hasAny: bool, hasAll: bool)

  function PathFacts(lib: Library, actuals: set<Value>, expecteds: set<Value>): ListFacts {
    if expecteds == {} then Undecided
    else
      var hasAny := exists a, e :: a in actuals && e in expecteds && PathsMatch(lib, a, e);
      var hasAll := forall e :: e in expecteds ==> exists a :: a in actuals && PathsMatch(lib, a, e);
      Facts(hasAny, hasAll)
  }

  function UsernameFacts(lib: Library, names: set<string>, expecteds: set<Value>): ListFacts {
    if expecteds == {} then Undecided
    else
      var hasAny := exists e :: e in expecteds && AliasesMeet(lib, names, e);
      var hasAll := forall e :: e in expecteds ==> AliasesMeet(lib, names, e);
      Facts(hasAny, hasAll)
  }

  function TextFacts(actuals: set<string>, expecteds: set<string>, failClosed: bool): ListFacts {
    if failClosed && (actuals == {} || expecteds == {}) then Undecided
    else if expecteds == {} then Undecided
    else Facts(actuals * expecteds != {}, expecteds <= actuals)
  }

  function FactsFor(lib: Library, actual: Value, expected: Value, kind: FieldKind): ListFacts {
    match kind
    case PathField => PathFacts(lib, Contents(lib, actual), Contents(lib, expected))
    case UsernameField => UsernameFacts(lib, ComparedTexts(lib, kind, actual), Contents(lib, expected))
    case LanguageField | CountryField =>
      TextFacts(ComparedTexts(lib, kind, actual), ComparedTexts(lib, kind, expected), true)
    case _ => TextFacts(ComparedTexts(lib, kind, actual), ComparedTexts(lib, kind, expected), false)
  }

  predicate ListResult(operator: Operator, facts: ListFacts) {
    facts.Facts? &&
    match operator
    case In | ContainsAny => facts.hasAny
    case NotIn | NotContainsAny => !facts.hasAny
    case ContainsAll => facts.hasAll
    case NotContainsAll => !facts.hasAll
    case _ => false
  }

  predicate MatchesListOperator(lib: Library, actual: Value, operator: Operator, expected: Value, kind: FieldKind) {
    ListResult(operator, FactsFor(lib, actual, expected, kind))
  }

  /** The patterns among some values that compile. */
  function CompiledPatterns(lib: Library, items: seq<Value>): seq<string -> bool> {
    if items == [] then []
    else
      (if HasContent(lib, items[0]) && lib.pattern(items[0]).Some? then [lib.pattern(items[0]).value] else [])
      + CompiledPatterns(lib, items[1..])
  }

  /** The text of a value that patterns are matched with. */
  function PatternText(lib: Library, kind: FieldKind, v: Value): string {
    if kind.PathField? || kind.FileNameField? then lib.path(v) else lib.normalize(v)
  }

  /** Some pattern matches some of the values. */
  predicate AnyMatches(lib: Library, compiled: seq<string -> bool>, values: set<Value>, kind: FieldKind) {
    exists v, i :: v in values && 0 <= i < |compiled| && compiled[i](PatternText(lib, kind, v))
  }

  /** Whether any value matches any pattern; None when no pattern compiles. */
  function MatchesAnyPattern(lib: Library, actual: Value, expected: Value, kind: FieldKind): Option<bool> {
    var compiled := CompiledPatterns(lib, AsList(expected));
    if compiled == [] then None else Some(AnyMatches(lib, compiled, Contents(lib, actual), kind))
  }

  predicate IsSubstring(needle: string, haystack: string) {
    exists before, after :: 0 <= before <= after <= |haystack| && haystack[before..after] == needle
  }

  /** Whether any expected text occurs in any actual text; None when no expected text is usable. */
  function FindsSubstring(lib: Library, actual: Value, expected: Value): Option<bool> {
    var needles, haystacks := ComparedTexts(lib, PlainField, expected), ComparedTexts(lib, PlainField, actual);
    if needles == {} then None
    else
      var found := exists h, n :: h in haystacks && n in needles && IsSubstring(n, h);
      Some(found)
  }

  predicate MatchesDates(operator: Operator, left: Option<int>, right: Option<int>) {
    left.Some? && right.Some? &&
    match operator
    case Before => left.value < right.value
    case OnOrBefore => left.value <= right.value
    case After => left.value > right.value
    case OnOrAfter => left.value >= right.value
    case _ => false
  }

  predicate MatchesNumbers(operator: Operator, left: Option<real>, right: Option<real>) {
    left.Some? && right.Some? &&
    match operator
    case GreaterThan => left.value > right.value
    case GreaterOrEqual => left.value >= right.value
    case LessThan => left.value < right.value
    case LessOrEqual => left.value <= right.value
    case _ => false
  }

  /** Equality of two scalars; None when one of them is missing. */
  function SameScalar(lib: Library, left: Value, right: Value, kind: FieldKind): Option<bool> {
    if left.Null? || right.Null? then None
    else if kind.PathField? then Some(MatchesPathPrefix(lib, left, right))
    else if lib.number(left).Some? && lib.number(right).Some? then
      Some(lib.number(left).value == lib.number(right).value)
    else Some(lib.normalize(left) == lib.normalize(right))
  }

  /** Fields that can hold several values, for which equality is a list comparison. */
  predicate ComparesAsList(kind: FieldKind) {
    match kind
    case PathField | UsernameField | LanguageField | CountryField | MultiTextField => true
    case UserScopedField | FileNameField | PlainField => false
  }

  /** `exists`: for a language field, whether any language is named. */
  predicate IsPresent(lib: Library, actual: Value, kind: FieldKind) {
    match kind
    case LanguageField => ComparedTexts(lib, kind, actual) != {}
    case _ => HasContent(lib, actual)
  }

  predicate MatchesEquality(lib: Library, actual: Value, operator: Operator, expected: Value, kind: FieldKind) {
    match ComparesAsList(kind)
    case true =>
      MatchesListOperator(lib, actual, if operator.Equals? then ContainsAny else NotContainsAny, expected, kind)
    case false => SameScalar(lib, FirstScalar(actual), FirstScalar(expected), kind) == Some(operator.Equals?)
  }

  /** One operator applied to one actual and one expected value; unavailable data matches nothing. */
  predicate MatchesOperator(lib: Library, actual: Value, operator: Operator, expected: Value, kind: FieldKind) {
    match actual
    case Unavailable => false
    case _ => MatchesAvailable(lib, actual, operator, expected, kind)
  }

  predicate MatchesAvailable(lib: Library, actual: Value, operator: Operator, expected: Value, kind: FieldKind) {
    match FamilyOf(operator)
    case Presence => IsPresent(lib, actual, kind) == operator.Exists?
    case Truth => actual == Bool(operator.IsTrue?)
    case Regex => MatchesAnyPattern(lib, actual, expected, kind) == Some(operator.MatchesAnyRegex?)
    case Listing => MatchesListOperator(lib, actual, operator, expected, kind)
    case Substring => FindsSubstring(lib, actual, expected) == Some(operator.ContainsSubstring?)
    case Equality => MatchesEquality(lib, actual, operator, expected, kind)
    case Dating => MatchesDates(operator, lib.day(FirstScalar(actual)), lib.day(FirstScalar(expected)))
    case Ordering =>
      && !FirstScalar(actual).Null? && !FirstScalar(expected).Null?
      && MatchesNumbers(operator, lib.number(FirstScalar(actual)), lib.number(FirstScalar(expected)))
  }

  // -------------------------------------------------------------------------------------------
  // Negated operators

  /** The negated form of an operator, for the operators that have one. */
  function Negated(operator: Operator): Option<Operator> {
    match operator
    case Exists => Some(NotExists)
    case MatchesAnyRegex => Some(NotMatchesAnyRegex)
    case In => Some(NotIn)
    case ContainsAny => Some(NotContainsAny)
    case ContainsAll => Some(NotContainsAll)
    case ContainsSubstring => Some(NotContainsSubstring)
    case Equals => Some(NotEquals)
    case _ => None
  }

  /** Some member of a value carries content. */
  predicate HasMember(lib: Library, value: Value) {
    exists item :: item in AsList(value) && HasContent(lib, item)
  }

  predicate NamesLanguage(lib: Library, value: Value) {
    exists item :: item in AsList(value) && lib.language(item).Some?
  }

  predicate NamesCountry(lib: Library, value: Value) {
    exists item :: item in AsList(value) && lib.country(item) != ""
  }

  predicate HasUsablePattern(lib: Library, expected: Value) {
    exists p :: p in AsList(expected) && HasContent(lib, p) && lib.pattern(p).Some?
  }

  /**
   Whether a list comparison has enough data to decide: the condition names something usable, and
   for a field that fails closed so does the actual value.
   */
  predicate ListDecides(lib: Library, actual: Value, expected: Value, kind: FieldKind) {
    match kind
    case LanguageField => NamesLanguage(lib, expected) && NamesLanguage(lib, actual)
    case CountryField => NamesCountry(lib, expected) && NamesCountry(lib, actual)
    case _ => HasMember(lib, expected)
  }

  /** Whether an operator and its negation have enough data to decide between them. */
  predicate Decides(lib: Library, actual: Value, operator: Operator, expected: Value, kind: FieldKind) {
    match FamilyOf(operator)
    case Presence => true
    case Regex => HasUsablePattern(lib, expected)
    case Substring => HasMember(lib, expected)
    case Listing => ListDecides(lib, actual, expected, kind)
    case _ =>
      if ComparesAsList(kind) then ListDecides(lib, actual, expected, kind)
      else !FirstScalar(actual).Null? && !FirstScalar(expected).Null?
  }

  /** Of two opposite answers exactly one is given when the question is decided, and neither otherwise. */
  predicate Complementary(positive: bool, negative: bool, decided: bool) {
    !(positive && negative) && (positive || negative) == decided
  }

  lemma {:induction false} CompiledPatternsNonEmpty(lib: Library, items: seq<Value>)
    ensures CompiledPatterns(lib, items) != []
            <==> exists p :: p in items && HasContent(lib, p) && lib.pattern(p).Some?
  {
    if items != [] {
      CompiledPatternsNonEmpty(lib, items[1..]);
      assert items == [items[0]] + items[1..];
    }
  }

  lemma ContentsNonEmpty(lib: Library, value: Value, kind: FieldKind)
    ensures (Contents(lib, value) != {}) == HasMember(lib, value)
    ensures !kind.LanguageField? && !kind.CountryField? ==>
              (ComparedTexts(lib, kind, value) != {}) == HasMember(lib, value)
  {
    if item :| item in AsList(value) && HasContent(lib, item) {
      assert item in Contents(lib, value);
      assert !kind.LanguageField? && !kind.CountryField? ==> lib.normalize(item) in ComparedTexts(lib, kind, value);
    }
  }

  lemma NamesNonEmpty(lib: Library, value: Value)
    ensures (ComparedTexts(lib, LanguageField, value) != {}) == NamesLanguage(lib, value)
    ensures (ComparedTexts(lib, CountryField, value) != {}) == NamesCountry(lib, value)
  {
    if item :| item in AsList(value) && lib.language(item).Some? {
      assert lib.language(item).value in ComparedTexts(lib, LanguageField, value);
    }
    if item :| item in AsList(value) && lib.country(item) != "" {
      assert lib.country(item) in ComparedTexts(lib, CountryField, value);
    }
  }

  /** A list comparison is decided exactly when the condition, and the actual value of a fail-closed field, are usable. */
  lemma FactsDecide(lib: Library, actual: Value, expected: Value, kind: FieldKind)
    ensures FactsFor(lib, actual, expected, kind).Facts? == ListDecides(lib, actual, expected, kind)
  {
    if kind.LanguageField? || kind.CountryField? {
      NamesNonEmpty(lib, actual);
      NamesNonEmpty(lib, expected);
    } else {
      ContentsNonEmpty(lib, expected, kind);
    }
  }

  lemma FactsNegations(facts: ListFacts, operator: Operator)
    requires FamilyOf(operator) == Listing && Negated(operator).Some?
    ensures Complementary(ListResult(operator, facts), ListResult(Negated(operator).value, facts), facts.Facts?)
  {
  }

  lemma ListNegations(lib: Library, actual: Value, operator: Operator, expected: Value, kind: FieldKind)
    requires FamilyOf(operator) == Listing && Negated(operator).Some?
    ensures Complementary(MatchesListOperator(lib, actual, operator, expected, kind),
                          MatchesListOperator(lib, actual, Negated(operator).value, expected, kind),
                          ListDecides(lib, actual, expected, kind))
  {
    FactsDecide(lib, actual, expected, kind);
    FactsNegations(FactsFor(lib, actual, expected, kind), operator);
  }

  lemma RegexNegations(lib: Library, actual: Value, operator: Operator, expected: Value, kind: FieldKind)
    requires Negated(operator).Some? && FamilyOf(operator) == Regex
    ensures Complementary(MatchesAvailable(lib, actual, operator, expected, kind),
                          MatchesAvailable(lib, actual, Negated(operator).value, expected, kind),
                          Decides(lib, actual, operator, expected, kind))
  {
    CompiledPatternsNonEmpty(lib, AsList(expected));
  }

  lemma SubstringNegations(lib: Library, actual: Value, operator: Operator, expected: Value, kind: FieldKind)
    requires Negated(operator).Some? && FamilyOf(operator) == Substring
    ensures Complementary(MatchesAvailable(lib, actual, operator, expected, kind),
                          MatchesAvailable(lib, actual, Negated(operator).value, expected, kind),
                          Decides(lib, actual, operator, expected, kind))
  {
    ContentsNonEmpty(lib, expected, PlainField);
  }

  lemma ListingNegations(lib: Library, actual: Value, operator: Operator, expected: Value, kind: FieldKind)
    requires Negated(operator).Some? && FamilyOf(operator) == Listing
    ensures Complementary(MatchesAvailable(lib, actual, operator, expected, kind),
                          MatchesAvailable(lib, actual, Negated(operator).value, expected, kind),
                          Decides(lib, actual, operator, expected, kind))
  {
    ListNegations(lib, actual, operator, expected, kind);
    ListingDispatch(lib, actual, operator, expected, kind);
    ListingDispatch(lib, actual, Negated(operator).value, expected, kind);
  }

  lemma ListingDispatch(lib: Library, actual: Value, operator: Operator, expected: Value, kind: FieldKind)
    requires FamilyOf(operator) == Listing
    ensures MatchesAvailable(lib, actual, operator, expected, kind)
            == MatchesListOperator(lib, actual, operator, expected, kind)
    ensures Decides(lib, actual, operator, expected, kind) == ListDecides(lib, actual, expected, kind)
  {
  }

  lemma ListEqualityNegations(lib: Library, actual: Value, expected: Value, kind: FieldKind)
    requires ComparesAsList(kind)
    ensures Complementary(MatchesEquality(lib, actual, Equals, expected, kind),
                          MatchesEquality(lib, actual, NotEquals, expected, kind),
                          ListDecides(lib, actual, expected, kind))
  {
    ListNegations(lib, actual, ContainsAny, expected, kind);
  }

  lemma ScalarEqualityNegations(lib: Library, actual: Value, expected: Value, kind: FieldKind)
    requires !ComparesAsList(kind)
    ensures Complementary(MatchesEquality(lib, actual, Equals, expected, kind),
                          MatchesEquality(lib, actual, NotEquals, expected, kind),
                          !FirstScalar(actual).Null? && !FirstScalar(expected).Null?)
  {
  }

  lemma EqualityDispatch(lib: Library, actual: Value, operator: Operator, expected: Value, kind: FieldKind)
    requires FamilyOf(operator) == Equality
    ensures MatchesAvailable(lib, actual, operator, expected, kind)
            == MatchesEquality(lib, actual, operator, expected, kind)
  {
  }

  /**
   An operator and its negation never both match, and exactly one of them matches precisely when
   the value is available and there is data to decide with: otherwise both of them fail.
   */
  lemma NegatedOperatorsAreComplements(lib: Library, actual: Value, operator: Operator, expected: Value, kind: FieldKind)
    requires Negated(operator).Some?
    ensures Complementary(MatchesOperator(lib, actual, operator, expected, kind),
                          MatchesOperator(lib, actual, Negated(operator).value, expected, kind),
                          !actual.Unavailable? && Decides(lib, actual, operator, expected, kind))
  {
    if !actual.Unavailable? {
      AvailableNegations(lib, actual, operator, expected, kind);
    }
  }

  lemma AvailableNegations(lib: Library, actual: Value, operator: Operator, expected: Value, kind: FieldKind)
    requires Negated(operator).Some?
    ensures Complementary(MatchesAvailable(lib, actual, operator, expected, kind),
                          MatchesAvailable(lib, actual, Negated(operator).value, expected, kind),
                          Decides(lib, actual, operator, expected, kind))
  {
    match FamilyOf(operator)
    case Presence => PresenceNegations(lib, actual, operator, expected, kind);
    case Regex => RegexNegations(lib, actual, operator, expected, kind);
    case Substring => SubstringNegations(lib, actual, operator, expected, kind);
    case Listing => ListingNegations(lib, actual, operator, expected, kind);
    case Equality => EqualityNegations(lib, actual, expected, kind);
  }

  lemma PresenceNegations(lib: Library, actual: Value, operator: Operator, expected: Value, kind: FieldKind)
    requires Negated(operator).Some? && FamilyOf(operator) == Presence
    ensures Complementary(MatchesAvailable(lib, actual, operator, expected, kind),
                          MatchesAvailable(lib, actual, Negated(operator).value, expected, kind),
                          Decides(lib, actual, operator, expected, kind))
  {
  }

  /** Whether there is data to decide an equality with. */
  predicate EqualityDecides(lib: Library, actual: Value, expected: Value, kind: FieldKind) {
    match ComparesAsList(kind)
    case true => ListDecides(lib, actual, expected, kind)
    case false => !FirstScalar(actual).Null? && !FirstScalar(expected).Null?
  }

  lemma MatchedEqualityNegations(lib: Library, actual: Value, expected: Value, kind: FieldKind)
    ensures Complementary(MatchesEquality(lib, actual, Equals, expected, kind),
                          MatchesEquality(lib, actual, NotEquals, expected, kind),
                          EqualityDecides(lib, actual, expected, kind))
  {
    if ComparesAsList(kind) {
      ListEqualityNegations(lib, actual, expected, kind);
    } else {
      ScalarEqualityNegations(lib, actual, expected, kind);
    }
  }

  lemma DecidesEquality(lib: Library, actual: Value, expected: Value, kind: FieldKind)
    ensures Decides(lib, actual, Equals, expected, kind) == EqualityDecides(lib, actual, expected, kind)
  {
  }

  lemma EqualityNegations(lib: Library, actual: Value, expected: Value, kind: FieldKind)
    ensures Complementary(MatchesAvailable(lib, actual, Equals, expected, kind),
                          MatchesAvailable(lib, actual, NotEquals, expected, kind),
                          Decides(lib, actual, Equals, expected, kind))
  {
    EqualityDispatch(lib, actual, Equals, expected, kind);
    EqualityDispatch(lib, actual, NotEquals, expected, kind);
    DecidesEquality(lib, actual, expected, kind);
    MatchedEqualityNegations(lib, actual, expected, kind);
  }

  lemma AllPathsImplyAny(lib: Library, actuals: set<Value>, expecteds: set<Value>)
    ensures PathFacts(lib, actuals, expecteds).Facts? && PathFacts(lib, actuals, expecteds).hasAll
            ==> PathFacts(lib, actuals, expecteds).hasAny
  {
    if expecteds != {} { var e :| e in expecteds; }
  }

  lemma AllNamesImplyAny(lib: Library, names: set<string>, expecteds: set<Value>)
    ensures UsernameFacts(lib, names, expecteds).Facts? && UsernameFacts(lib, names, expecteds).hasAll
            ==> UsernameFacts(lib, names, expecteds).hasAny
  {
    if expecteds != {} { var e :| e in expecteds; }
  }

  lemma AllTextsImplyAny(actuals: set<string>, expecteds: set<string>, failClosed: bool)
    ensures TextFacts(actuals, expecteds, failClosed).Facts? && TextFacts(actuals, expecteds, failClosed).hasAll
            ==> TextFacts(actuals, expecteds, failClosed).hasAny
  {
    if expecteds != {} && expecteds <= actuals {
      var e :| e in expecteds;
      assert e in actuals * expecteds;
    }
  }

  /** Containing all of the expected values implies containing one of them, for every kind of field. */
  lemma ContainsAllImpliesAny(lib: Library, actual: Value, expected: Value, kind: FieldKind)
    requires MatchesListOperator(lib, actual, ContainsAll, expected, kind)
    ensures MatchesListOperator(lib, actual, ContainsAny, expected, kind)
  {
    AllPathsImplyAny(lib, Contents(lib, actual), Contents(lib, expected));
    AllNamesImplyAny(lib, ComparedTexts(lib, kind, actual), Contents(lib, expected));
    AllTextsImplyAny(ComparedTexts(lib, kind, actual), ComparedTexts(lib, kind, expected), true);
    AllTextsImplyAny(ComparedTexts(lib, kind, actual), ComparedTexts(lib, kind, expected), false);
  }
}
