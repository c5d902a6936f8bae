/**
 * The remission guide record, its status constants and the validity rule a
 * guide must meet before it is saved or approved.
 */
module GuideModel {
  import opened Wrappers
  import opened KotlinText

  const PENDING_REVIEW: string := "PENDIENTE_REVISION"
  const APPROVED: string := "APROBADO"
  const SYNCED: string := "SINCRONIZADO"
  const ERROR: string := "ERROR"

  /** The key under which the serialised product list is kept. */
  const PRODUCTS_KEY: string := "productosJson"

  /**
   * A remission guide. `status` is None for a guide whose status is null;
   * the repository always stores a status.
   */
  datatype RemissionGuide = RemissionGuide(
    id: string,
    guideName: string,
    date: string,
    ruc: string,
    status: Option<string>,
    extractedData: map<string, string>)

  /** A guide built with the record's default arguments. */
  const NewGuide: RemissionGuide := RemissionGuide("", "", "", "", Some(PENDING_REVIEW), map[])

  /** Eleven characters, every one a digit. */
  predicate RucIsValid(ruc: string) {
    |ruc| == 11 && forall i :: 0 <= i < |ruc| ==> IsDigit(ruc[i])
  }

  predicate HasBasicData(g: RemissionGuide) {
    !IsBlank(g.guideName) && !IsBlank(g.date)
  }

  /** An approved guide carries a product list that is present, not blank
      and not the empty array text. */
  predicate ApprovalIntegrity(g: RemissionGuide) {
    g.status == Some(APPROVED) ==>
      PRODUCTS_KEY in g.extractedData
      && !IsBlank(g.extractedData[PRODUCTS_KEY])
      && g.extractedData[PRODUCTS_KEY] != "[]"
  }

  /** `RemissionGuide.isValid()`: a valid guide has an eleven-digit RUC, a
      name and a date, and when approved a stored product list that is not
      the empty array. */
  predicate IsValid(g: RemissionGuide)
    ensures IsValid(g) ==> |g.ruc| == 11 && !IsBlank(g.guideName) && !IsBlank(g.date)
    ensures IsValid(g) && g.status == Some(APPROVED) ==>
      PRODUCTS_KEY in g.extractedData && g.extractedData[PRODUCTS_KEY] != "[]"
  {
    RucIsValid(g.ruc) && HasBasicData(g) && ApprovalIntegrity(g)
  }

  lemma RucOfWrongLengthIsInvalid(g: RemissionGuide)
    requires |g.ruc| != 11
    ensures !IsValid(g)
  {
  }

  lemma RucWithNonDigitIsInvalid(g: RemissionGuide, i: int)
    requires 0 <= i < |g.ruc| && !IsDigit(g.ruc[i])
    ensures !IsValid(g)
  {
  }

  lemma BlankNameOrDateIsInvalid(g: RemissionGuide)
    requires IsBlank(g.guideName) || IsBlank(g.date)
    ensures !IsValid(g)
  {
  }

  /** Approval needs a product list that is present, not blank and not `[]`. */
  lemma ApprovedWithoutProductsIsInvalid(g: RemissionGuide)
    requires g.status == Some(APPROVED)
    requires PRODUCTS_KEY !in g.extractedData
             || IsBlank(g.extractedData[PRODUCTS_KEY])
             || g.extractedData[PRODUCTS_KEY] == "[]"
    ensures !IsValid(g)
  {
  }

  /** Only the exact text `[]` counts as an empty list: `[ ]` passes. */
  lemma SpacedEmptyListPassesApproval(g: RemissionGuide)
    requires g.status == Some(APPROVED)
    requires PRODUCTS_KEY in g.extractedData && g.extractedData[PRODUCTS_KEY] == "[ ]"
    ensures ApprovalIntegrity(g)
  {
    assert !IsWhitespace("[ ]"[0]);
  }

  /** For any status but APROBADO, null included, the product data is ignored. */
  lemma UnapprovedValidity(g: RemissionGuide, data: map<string, string>)
    requires g.status != Some(APPROVED)
    ensures IsValid(g) <==> RucIsValid(g.ruc) && HasBasicData(g)
    ensures IsValid(g) <==> IsValid(g.(extractedData := data))
  {
  }

  /** The conditions together are enough for validity, approved or not. */
  lemma CompleteGuideIsValid(g: RemissionGuide)
    requires RucIsValid(g.ruc) && !IsBlank(g.guideName) && !IsBlank(g.date)
    requires g.status == Some(APPROVED) ==>
      PRODUCTS_KEY in g.extractedData
      && !IsBlank(g.extractedData[PRODUCTS_KEY])
      && g.extractedData[PRODUCTS_KEY] != "[]"
    ensures IsValid(g)
  {
  }

  /** The three guides of the project's unit tests. */
  lemma BusinessLogicExamples()
    ensures !IsValid(NewGuide.(guideName := "Guia_2025.pdf", date := "2025-10-20", ruc := "1045"))
    ensures !IsValid(NewGuide.(guideName := "Guia_SinProductos.pdf", date := "2025-10-20",
                               ruc := "20123456789", status := Some(APPROVED),
                               extractedData := map[PRODUCTS_KEY := "[]"]))
    ensures IsValid(NewGuide.(guideName := "Guia_OK.pdf", date := "2025-10-20", ruc := "20607622427"))
  {
    var ok := NewGuide.(guideName := "Guia_OK.pdf", date := "2025-10-20", ruc := "20607622427");
    assert AllAsciiDigits(ok.ruc);
    AsciiDigitsAreDigits(ok.ruc);
    assert !IsWhitespace(ok.guideName[0]) && !IsWhitespace(ok.date[0]);
  }
}
