/**
 * The guide store of a signed-in user: one collection of guides per user
 * id, each guide kept under its document id. `addGuide` and `deleteGuide`
 * update the store in place; `getGuides` turns a collection snapshot into
 * the guide list; `extractDataFromGuide` turns the extraction backend's
 * answer into a new guide.
 */
module GuideRepository {
  import opened Wrappers
  import opened KotlinText
  import opened GuideModel
  import opened GeminiResponseModels

  const NO_USER_TO_SAVE: string := "No hay usuario autenticado para guardar la guía."
  const NO_USER_TO_DELETE: string := "No hay usuario autenticado para eliminar la guía."
  const BLANK_GUIDE_ID: string := "El ID de la guía no puede estar vacío."

  /** The status of a guide fresh from extraction. */
  const EXTRACTED: string := "Extraído"
  /** What stands in for a date or RUC the backend did not find. */
  const NOT_AVAILABLE: string := "N/A"

  const ARRIVAL_KEY: string := "fechaLlegada"
  const REGISTERED_KEY: string := "fechaRegistro"
  const TRANSPORT_COST_KEY: string := "costoTransporte"

  /** The user whose collection the repository may touch: someone must be
      signed in, with a non-blank id. */
  predicate SignedIn(user: Option<string>) {
    user.Some? && !IsBlank(user.value)
  }

  class GuideStore {
    /** `authRepository.getCurrentUserId()`. */
    var currentUser: Option<string>
    /** `users/{uid}/guides`, per user: document id to stored guide. */
    var collections: map<string, map<string, RemissionGuide>>

    /** Every stored guide sits under its own id, and no id is blank. */
    ghost predicate Valid()
      reads this
    {
      forall uid, key | uid in collections && key in collections[uid] ::
        !IsBlank(key) && collections[uid][key].id == key
    }

    /** A user's collection; one never written to is empty. */
    function Collection(uid: string): map<string, RemissionGuide>
      reads this
    {
      if uid in collections then collections[uid] else map[]
    }

    constructor (user: Option<string>)
      ensures Valid() && currentUser == user && collections == map[]
    {
      currentUser := user;
      collections := map[];
    }

    /**
     * `addGuide`: with a non-blank id, the guide is written under that id,
     * replacing what was there; with a blank id, the store allocates the
     * fresh document id `autoId`, writes the guide there and then rewrites
     * it carrying that id.
     */
    method AddGuide(guide: RemissionGuide, autoId: string) returns (r: Result<()>)
      requires Valid()
      requires SignedIn(currentUser) && IsBlank(guide.id) ==>
        !IsBlank(autoId) && autoId !in Collection(currentUser.value)
      modifies this`collections
      ensures Valid()
      ensures !SignedIn(currentUser) ==> r == Failure(NO_USER_TO_SAVE) && collections == old(collections)
      ensures SignedIn(currentUser) && !IsBlank(guide.id) ==>
        r.Success?
        && collections == old(collections)[currentUser.value := old(Collection(currentUser.value))[guide.id := guide]]
      ensures SignedIn(currentUser) && IsBlank(guide.id) ==>
        r.Success?
        && collections == old(collections)[currentUser.value := old(Collection(currentUser.value))[autoId := guide.(id := autoId)]]
      ensures SignedIn(currentUser) ==>
        var key := if IsBlank(guide.id) then autoId else guide.id;
        key in Collection(currentUser.value) && Collection(currentUser.value)[key].id == key
      ensures SignedIn(currentUser) && IsBlank(guide.id) ==>
        |Collection(currentUser.value)| == |old(Collection(currentUser.value))| + 1
    {
      if !SignedIn(currentUser) {
        return Failure(NO_USER_TO_SAVE);
      }
      var uid := currentUser.value;
      if !IsBlank(guide.id) {
        collections := collections[uid := Collection(uid)[guide.id := guide]];
      } else {
        ghost var before := Collection(uid);
        collections := collections[uid := Collection(uid)[autoId := guide]];
        collections := collections[uid := Collection(uid)[autoId := guide.(id := autoId)]];
        assert Collection(uid) == before[autoId := guide][autoId := guide.(id := autoId)];
        assert Collection(uid) == before[autoId := guide.(id := autoId)];
      }
      ghost var key := if IsBlank(guide.id) then autoId else guide.id;
      forall u, k | u in collections && k in collections[u]
        ensures !IsBlank(k) && collections[u][k].id == k
      {
        if u == uid && k != key {
          assert k in old(Collection(uid)) && collections[u][k] == old(Collection(uid))[k];
        }
      }
      r := Success(());
    }

    /** `deleteGuide`: removes the document with that id, if any. */
    method DeleteGuide(guideId: string) returns (r: Result<()>)
      requires Valid()
      modifies this`collections
      ensures Valid()
      ensures !SignedIn(currentUser) ==> r == Failure(NO_USER_TO_DELETE) && collections == old(collections)
      ensures SignedIn(currentUser) && IsBlank(guideId) ==>
        r == Failure(BLANK_GUIDE_ID) && collections == old(collections)
      ensures SignedIn(currentUser) && !IsBlank(guideId) ==>
        r.Success?
        && collections == old(collections)[currentUser.value := old(Collection(currentUser.value)) - {guideId}]
    {
      if !SignedIn(currentUser) {
        return Failure(NO_USER_TO_DELETE);
      }
      if IsBlank(guideId) {
        return Failure(BLANK_GUIDE_ID);
      }
      var uid := currentUser.value;
      collections := collections[uid := Collection(uid) - {guideId}];
      r := Success(());
    }
  }

  /** A document of a collection snapshot: its id and its data, None when
      the data does not decode to a guide. */
  datatype Document = Document(id: string, data: Option<RemissionGuide>)

  /** A snapshot of the collection, or the failure the stream reported. */
  datatype Snapshot = Documents(docs: seq<Document>) | StreamError

  /** The guide a document yields: its data carrying the document's id, and
      nothing for a document that does not decode or has a blank id. */
  function Normalise(doc: Document): (g: Option<RemissionGuide>)
    ensures g.Some? <==> doc.data.Some? && !IsBlank(doc.id)
    ensures g.Some? ==> g.value.id == doc.id && g.value == doc.data.value.(id := doc.id)
  {
    match doc.data
    case None => None
    case Some(guide) =>
      var withId := guide.(id := doc.id);
      if !IsBlank(withId.id) then Some(withId) else None
  }

  /** `mapNotNull` over the documents, in snapshot order. */
  function NormaliseAll(docs: seq<Document>): (r: seq<RemissionGuide>)
    ensures |r| <= |docs|
    ensures forall i :: 0 <= i < |r| ==> !IsBlank(r[i].id)
  {
    if docs == [] then []
    else
      match Normalise(docs[0])
      case None => NormaliseAll(docs[1..])
      case Some(g) => [g] + NormaliseAll(docs[1..])
  }

  /** `getGuides`: the signed-in user's guides, or none at all. */
  function GetGuides(user: Option<string>, snapshot: Snapshot): (r: seq<RemissionGuide>)
    ensures !SignedIn(user) || snapshot.StreamError? ==> r == []
    ensures forall i :: 0 <= i < |r| ==> !IsBlank(r[i].id)
  {
    if !SignedIn(user) then []
    else
      match snapshot
      case StreamError => []
      case Documents(docs) => NormaliseAll(docs)
  }

  /** Every listed guide comes from a document and carries that document's
      id, and documents keep their order. */
  lemma {:induction false} ListedGuidesComeFromDocuments(docs: seq<Document>, i: nat)
    returns (j: nat)
    requires i < |NormaliseAll(docs)|
    ensures j < |docs| && docs[j].data.Some? && !IsBlank(docs[j].id)
    ensures NormaliseAll(docs)[i] == docs[j].data.value.(id := docs[j].id)
    ensures NormaliseAll(docs[j + 1..]) == NormaliseAll(docs)[i + 1..]
  {
    var r := NormaliseAll(docs);
    match Normalise(docs[0])
    case None =>
      var k := ListedGuidesComeFromDocuments(docs[1..], i);
      j := k + 1;
      assert docs[1..][k + 1..] == docs[j + 1..];
    case Some(g) =>
      if i == 0 {
        j := 0;
      } else {
        var k := ListedGuidesComeFromDocuments(docs[1..], i - 1);
        j := k + 1;
        assert docs[1..][k + 1..] == docs[j + 1..];
      }
  }

  /** Every document that decodes and has a non-blank id is listed, under
      its document id. */
  lemma {:induction false} EveryGoodDocumentIsListed(docs: seq<Document>, j: nat)
    requires j < |docs| && docs[j].data.Some? && !IsBlank(docs[j].id)
    ensures docs[j].data.value.(id := docs[j].id) in NormaliseAll(docs)
  {
    if j > 0 {
      EveryGoodDocumentIsListed(docs[1..], j - 1);
    }
  }

  /** Listing a collection in which every guide already carries its
      document id, as the store keeps it, gives back the stored guides. */
  lemma {:induction false} ListingAValidCollection(docs: seq<Document>)
    requires forall j :: 0 <= j < |docs| ==>
      docs[j].data.Some? && !IsBlank(docs[j].id) && docs[j].data.value.id == docs[j].id
    ensures NormaliseAll(docs) == seq(|docs|, j requires 0 <= j < |docs| => docs[j].data.value)
  {
    if docs != [] {
      ListingAValidCollection(docs[1..]);
      assert docs[0].data.value.(id := docs[0].id) == docs[0].data.value;
    }
  }

  /** A string field of the answer is taken only when present and not blank. */
  predicate Given(s: Option<string>) {
    s.Some? && !IsBlank(s.value)
  }

  /** The entry for `key` is present exactly when the answer gave a
      non-blank value, and is that value. */
  predicate EntryFrom(m: map<string, string>, key: string, value: Option<string>) {
    (key in m <==> Given(value)) && (key in m ==> m[key] == value.value)
  }

  function Arrival(details: Option<ExtractedDetails>): Option<string> {
    if details.Some? then details.value.fechaLlegada else None
  }

  function Registered(details: Option<ExtractedDetails>): Option<string> {
    if details.Some? then details.value.fechaRegistro else None
  }

  function TransportCost(details: Option<ExtractedDetails>): Option<string> {
    if details.Some? then details.value.costoTransporte else None
  }

  /** The product list, when the details carry a non-empty one. */
  function Products(details: Option<ExtractedDetails>): Option<seq<Producto>> {
    if details.Some? && details.value.productos.Some? && details.value.productos.value != []
    then details.value.productos else None
  }

  /** The `extractedData` map a guide gets from the extracted details. */
  predicate ExtractedDataOf(details: Option<ExtractedDetails>, m: map<string, string>) {
    (forall k | k in m :: k == ARRIVAL_KEY || k == REGISTERED_KEY || k == TRANSPORT_COST_KEY || k == PRODUCTS_KEY)
    && EntryFrom(m, ARRIVAL_KEY, Arrival(details))
    && EntryFrom(m, REGISTERED_KEY, Registered(details))
    && EntryFrom(m, TRANSPORT_COST_KEY, TransportCost(details))
    && (PRODUCTS_KEY in m <==> Products(details).Some?)
    && (PRODUCTS_KEY in m ==> m[PRODUCTS_KEY] == EncodeProductos(Products(details).value))
  }

  /** The guide built from a decoded answer: named after the file, status
      "Extraído", no id yet, date and RUC as given or "N/A". */
  predicate ExtractedGuideOf(fileName: string, response: GeminiResponse, g: RemissionGuide) {
    g.id == "" && g.guideName == fileName && g.status == Some(EXTRACTED)
    && g.date == (if Given(response.date) then response.date.value else NOT_AVAILABLE)
    && g.ruc == (if Given(response.ruc) then response.ruc.value else NOT_AVAILABLE)
    && ExtractedDataOf(response.extractedData, g.extractedData)
  }

  /** What the backend call gave back. */
  datatype ErrorBody =
    | ErrorContent(content: string)  // an object whose "error" is a primitive
    | NoErrorKey                     // an object without "error"
    | Unparsable                     // not an object, or "error" is not a primitive

  datatype HttpOutcome =
    | Ok(decoded: Result<GeminiResponse>)         // a success status; the body decoded, or the decoder's message
    | ErrorStatus(status: string, body: ErrorBody) // a failure status, printed as `code description`
    | TransportFailure(message: string)            // the request itself failed

  /**
   * `extractDataFromGuide` once the request has been answered: the error
   * cases become failures carrying the backend's or the decoder's message,
   * and a decoded answer becomes a guide whose `extractedData` is filled
   * entry by entry.
   */
  method ExtractDataFromGuide(fileName: string, outcome: HttpOutcome) returns (r: Result<RemissionGuide>)
    ensures outcome.TransportFailure? ==> r == Failure(outcome.message)
    ensures outcome.Ok? && outcome.decoded.Failure? ==> r == Failure(outcome.decoded.error)
    ensures outcome.ErrorStatus? && outcome.body.ErrorContent? ==> r == Failure(outcome.body.content)
    ensures outcome.ErrorStatus? && outcome.body.NoErrorKey? ==>
      r == Failure("Error desconocido del backend (" + outcome.status + ")")
    ensures outcome.ErrorStatus? && outcome.body.Unparsable? ==>
      r == Failure("Error inesperado del backend (código " + outcome.status + ")")
    ensures outcome.Ok? && outcome.decoded.Success? ==>
      r.Success? && ExtractedGuideOf(fileName, outcome.decoded.value, r.value)
  {
    match outcome
    case TransportFailure(message) =>
      r := Failure(message);
    case ErrorStatus(status, body) =>
      var errorMessage := match body
        case ErrorContent(content) => content
        case NoErrorKey => "Error desconocido del backend (" + status + ")"
        case Unparsable => "Error inesperado del backend (código " + status + ")";
      r := Failure(errorMessage);
    case Ok(Failure(message)) =>
      r := Failure(message);
    case Ok(Success(response)) =>
      var data := ExtractedData(response.extractedData);
      var date := if Given(response.date) then response.date.value else NOT_AVAILABLE;
      var ruc := if Given(response.ruc) then response.ruc.value else NOT_AVAILABLE;
      r := Success(RemissionGuide("", fileName, date, ruc, Some(EXTRACTED), data));
  }

  /** The `extractedData` map, filled entry by entry from the details. */
  method ExtractedData(details: Option<ExtractedDetails>) returns (data: map<string, string>)
    ensures ExtractedDataOf(details, data)
  {
    DataKeysDiffer();
    data := map[];
    data := PutIfGiven(data, ARRIVAL_KEY, Arrival(details));
    data := PutIfGiven(data, REGISTERED_KEY, Registered(details));
    data := PutIfGiven(data, TRANSPORT_COST_KEY, TransportCost(details));
    if details.Some? && details.value.productos.Some? {
      var products := details.value.productos.value;
      if products != [] {
        data := data[PRODUCTS_KEY := EncodeProductos(products)];
      }
    }
  }

  /** `value?.takeIf { it.isNotBlank() }?.let { data[key] = it }`: one
      entry written when the value is given, every other entry as it was. */
  method PutIfGiven(data: map<string, string>, key: string, value: Option<string>)
    returns (r: map<string, string>)
    requires key !in data
    ensures EntryFrom(r, key, value)
    ensures forall k | k != key :: (k in r <==> k in data) && (k in r ==> r[k] == data[k])
  {
    r := data;
    if value.Some? && !IsBlank(value.value) {
      r := r[key := value.value];
    }
  }

  lemma DataKeysDiffer()
    ensures ARRIVAL_KEY != REGISTERED_KEY && ARRIVAL_KEY != TRANSPORT_COST_KEY && ARRIVAL_KEY != PRODUCTS_KEY
    ensures REGISTERED_KEY != TRANSPORT_COST_KEY && REGISTERED_KEY != PRODUCTS_KEY
    ensures TRANSPORT_COST_KEY != PRODUCTS_KEY
  {
    assert REGISTERED_KEY[0] != PRODUCTS_KEY[0];
    assert TRANSPORT_COST_KEY[0] != PRODUCTS_KEY[0];
    assert ARRIVAL_KEY[0] != PRODUCTS_KEY[0];
    assert |ARRIVAL_KEY| != |REGISTERED_KEY| && |ARRIVAL_KEY| != |TRANSPORT_COST_KEY|;
    assert |REGISTERED_KEY| != |TRANSPORT_COST_KEY|;
  }

  /** The description of the extracted guide leaves no freedom: there is
      exactly one guide it fits. */
  lemma ExtractedGuideIsDetermined(fileName: string, response: GeminiResponse, g: RemissionGuide, h: RemissionGuide)
    requires ExtractedGuideOf(fileName, response, g) && ExtractedGuideOf(fileName, response, h)
    ensures g == h
  {
    var m, n := g.extractedData, h.extractedData;
    assert forall k | k in m :: k in n && m[k] == n[k];
    assert forall k | k in n :: k in m;
    assert m == n;
  }

  /** A freshly extracted guide is valid exactly when the file name is not
      blank and the RUC found is eleven digits; a missing RUC ("N/A") makes
      it invalid, and its product list plays no part since it is not yet
      approved. */
  lemma ExtractedGuideValidity(fileName: string, response: GeminiResponse, g: RemissionGuide)
    requires ExtractedGuideOf(fileName, response, g)
    ensures IsValid(g) <==> !IsBlank(fileName) && RucIsValid(g.ruc)
    ensures !Given(response.ruc) ==> !IsValid(g)
  {
    assert EXTRACTED != APPROVED by {
      assert EXTRACTED[0] != APPROVED[0];
    }
    if !Given(response.date) {
      assert !IsWhitespace(NOT_AVAILABLE[0]);
    }
  }
}
