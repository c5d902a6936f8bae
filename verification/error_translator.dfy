/**
 * `translateError`: an ordered list of substring tests on the lower-cased
 * error message; the first test that holds picks the Spanish text shown to
 * the user, and a message no test recognises is shown as it came.
 */
module ErrorTranslator {
  import opened Wrappers
  import opened KotlinText

  /** A test on the lower-cased message. */
  datatype Test = Has(needle: string) | Both(left: Test, right: Test) | Either(left: Test, right: Test)

  datatype Rule = Rule(test: Test, text: string)

  predicate Holds(t: Test, message: string) {
    match t
    case Has(needle) => Contains(message, needle)
    case Both(l, r) => Holds(l, message) && Holds(r, message)
    case Either(l, r) => Holds(l, message) || Holds(r, message)
  }

  const UNKNOWN_ERROR: string := "Ha ocurrido un error desconocido"

  /** The branches of the `when`, in source order. */
  const Rules: seq<Rule> := [
    Rule(Has("email address is already in use"), "Ya existe un usuario con este correo"),
    Rule(Has("already exists"), "Ya existe un usuario con este correo"),
    Rule(Both(Has("email"), Has("invalid")), "El correo electrónico no es válido"),
    Rule(Both(Has("email"), Has("badly formatted")), "El correo electrónico tiene un formato incorrecto"),
    Rule(Has("is empty or null"), "Completa todos los campos"),
    Rule(Both(Has("credential"), Either(Has("expired"), Either(Has("invalid"), Has("malformed")))),
         "Tu sesión ha caducado o las credenciales no son válidas. Intenta iniciar sesión nuevamente"),
    Rule(Has("network"), "Error de conexión a internet"),
    Rule(Has("timeout"), "Tiempo de espera agotado"),
    Rule(Has("unreachable"), "Servidor no disponible"),
    Rule(Has("permission denied"), "No tienes permisos para realizar esta acción"),
    Rule(Has("unauthorized"), "Acceso no autorizado"),
    Rule(Has("invalid credentials"), "Credenciales inválidas"),
    Rule(Both(Has("password"), Has("invalid")), "La contraseña no es válida"),
    Rule(Has("not found"), "El recurso solicitado no existe"),
    Rule(Both(Has("document"), Has("missing")), "El documento no fue encontrado"),
    Rule(Both(Has("collection"), Has("not found")), "La colección no existe"),
    Rule(Has("invalid"), "Datos inválidos"),
    Rule(Has("failed"), "La operación ha fallado"),
    Rule(Has("exception"), "Ocurrió una excepción inesperada")
  ]

  // Positions of the rules the lemmas below talk about.
  const CREDENTIAL_RULE: nat := 5
  const NETWORK_RULE: nat := 6
  const INVALID_CREDENTIALS_RULE: nat := 11
  const NOT_FOUND_RULE: nat := 13
  const COLLECTION_RULE: nat := 15
  const FAILED_RULE: nat := 17

  /** The first rule, from position `i` on, whose test holds. */
  function FirstMatchFrom(message: string, i: nat): (r: Option<nat>)
    requires i <= |Rules|
    ensures r.Some? ==> i <= r.value < |Rules| && Holds(Rules[r.value].test, message)
    ensures r.Some? ==> forall j :: i <= j < r.value ==> !Holds(Rules[j].test, message)
    ensures r.None? ==> forall j :: i <= j < |Rules| ==> !Holds(Rules[j].test, message)
    decreases |Rules| - i
  {
    if i == |Rules| then None
    else if Holds(Rules[i].test, message) then Some(i)
    else FirstMatchFrom(message, i + 1)
  }

  /** The rule the `when` picks for a lower-cased message, if any. */
  function FirstMatch(message: string): (r: Option<nat>)
    ensures r.Some? ==> r.value < |Rules| && Holds(Rules[r.value].test, message)
    ensures r.Some? ==> forall j :: 0 <= j < r.value ==> !Holds(Rules[j].test, message)
    ensures r.None? ==> forall j :: 0 <= j < |Rules| ==> !Holds(Rules[j].test, message)
  {
    FirstMatchFrom(message, 0)
  }

  /** `translateError`. */
  function TranslateError(originalMessage: Option<string>): (r: string)
    ensures IsNullOrBlank(originalMessage) ==> r == UNKNOWN_ERROR
    ensures !IsNullOrBlank(originalMessage) ==>
      match FirstMatch(Lowercase(originalMessage.value))
      case Some(i) => r == Rules[i].text
      case None => r == originalMessage.value
  {
    if IsNullOrBlank(originalMessage) then UNKNOWN_ERROR
    else
      var message := Lowercase(originalMessage.value);
      match FirstMatch(message)
      case Some(i) => Rules[i].text
      case None => originalMessage.value
  }

  /** A rule whose test holds is never passed over: the pick is that rule
      or one before it. */
  lemma PickIsNoLaterThanAnyMatch(message: string, j: nat)
    requires j < |Rules| && Holds(Rules[j].test, message)
    ensures FirstMatch(message).Some? && FirstMatch(message).value <= j
  {
  }

  /** Two messages that agree once lower-cased and that some rule recognises
      get the same text: matching ignores case. */
  lemma MatchingIgnoresCase(a: string, b: string)
    requires !IsBlank(a) && !IsBlank(b) && Lowercase(a) == Lowercase(b)
    requires FirstMatch(Lowercase(a)).Some?
    ensures TranslateError(Some(a)) == TranslateError(Some(b))
  {
  }

  /** Two characters that are equal, or an upper-case ASCII letter and its
      lower-case letter. */
  predicate AsciiCaseVariant(x: char, y: char) {
    x == y
    || ('A' <= x <= 'Z' && y as int == x as int + 32)
    || ('A' <= y <= 'Z' && x as int == y as int + 32)
  }

  /** Messages that differ only in the case of ASCII letters are matched
      alike: they lower-case to the same text, one is blank exactly when the
      other is, and a recognised one gets the same translation as the other. */
  lemma CaseVariantsTranslateAlike(a: string, b: string)
    requires |a| == |b| && forall i :: 0 <= i < |a| ==> AsciiCaseVariant(a[i], b[i])
    ensures Lowercase(a) == Lowercase(b)
    ensures IsBlank(a) <==> IsBlank(b)
    ensures IsBlank(a) || FirstMatch(Lowercase(a)).Some? ==> TranslateError(Some(a)) == TranslateError(Some(b))
  {
    CaseVariantsFoldAlike(a, b);
  }

  lemma CaseVariantsFoldAlike(a: string, b: string)
    requires |a| == |b| && forall i :: 0 <= i < |a| ==> AsciiCaseVariant(a[i], b[i])
    ensures Lowercase(a) == Lowercase(b)
    ensures IsBlank(a) <==> IsBlank(b)
  {
    forall i | 0 <= i < |a|
      ensures LowerChar(a[i]) == LowerChar(b[i]) && (IsWhitespace(a[i]) <==> IsWhitespace(b[i]))
    {
    }
    assert Lowercase(a) == Lowercase(b);
  }

  /** A message that mentions the network and a failure is reported as a
      network error: the network rule comes before the "failed" rule. */
  lemma NetworkBeforeFailed(message: string)
    requires !IsBlank(message)
    requires Contains(Lowercase(message), "network") && Contains(Lowercase(message), "failed")
    ensures FirstMatch(Lowercase(message)).value <= NETWORK_RULE < FAILED_RULE
    ensures TranslateError(Some(message)) != Rules[FAILED_RULE].text
  {
    PickIsNoLaterThanAnyMatch(Lowercase(message), NETWORK_RULE);
  }

  /** When nothing is recognised the message comes back untouched, with its
      own capitals. */
  lemma UnrecognisedMessageVerbatim(message: string)
    requires !IsBlank(message)
    requires forall j :: 0 <= j < |Rules| ==> !Holds(Rules[j].test, Lowercase(message))
    ensures TranslateError(Some(message)) == message
  {
  }

  /** The "invalid credentials" rule never fires: any message holding that
      phrase holds "credential" and "invalid", which an earlier rule takes. */
  lemma InvalidCredentialsRuleUnreachable(message: string)
    ensures FirstMatch(message) != Some(INVALID_CREDENTIALS_RULE)
  {
    if Holds(Rules[INVALID_CREDENTIALS_RULE].test, message) {
      PhraseHoldsItsWords(message);
      assert Holds(Either(Has("invalid"), Has("malformed")), message);
      assert Holds(Either(Has("expired"), Either(Has("invalid"), Has("malformed"))), message);
      assert Holds(Rules[CREDENTIAL_RULE].test, message);
      PickIsNoLaterThanAnyMatch(message, CREDENTIAL_RULE);
    }
  }

  lemma PhraseHoldsItsWords(message: string)
    requires Contains(message, "invalid credentials")
    ensures Contains(message, "credential") && Contains(message, "invalid")
  {
    PhraseWords();
    ContainsTransitive(message, "invalid credentials", "credential");
    ContainsTransitive(message, "invalid credentials", "invalid");
  }

  lemma PhraseWords()
    ensures Contains("invalid credentials", "credential") && Contains("invalid credentials", "invalid")
  {
    var phrase := "invalid credentials";
    assert phrase[8..][..10] == "credential";
    ContainsAt(phrase, "credential", 8);
    assert phrase[..7] == "invalid";
  }

  /** The "collection" + "not found" rule never fires: the plain
      "not found" rule comes first. */
  lemma CollectionRuleUnreachable(message: string)
    ensures FirstMatch(message) != Some(COLLECTION_RULE)
  {
    if Holds(Rules[COLLECTION_RULE].test, message) {
      PickIsNoLaterThanAnyMatch(message, NOT_FOUND_RULE);
    }
  }

  /** The text shown is never empty. */
  lemma TranslationNeverEmpty(originalMessage: Option<string>)
    ensures |TranslateError(originalMessage)| > 0
  {
    if !IsNullOrBlank(originalMessage) {
      var pick := FirstMatch(Lowercase(originalMessage.value));
      if pick.Some? {
        RuleTextNonEmpty(pick.value);
      }
    }
  }

  lemma RuleTextNonEmpty(i: nat)
    requires i < |Rules|
    ensures |Rules[i].text| > 0
  {
    assert forall k :: 0 <= k < |Rules| ==> |Rules[k].text| > 0;
  }
}
