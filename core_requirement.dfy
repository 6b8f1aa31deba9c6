/** The nine general-education requirement categories, each with a title and a credit threshold. */
module CoreRequirements {
  import opened Wrappers

  /** The categories, declared in the order the enum declares them. */
  datatype Req = CA | WOC | QL | RGP | SI | LOTE | IP | CE | CIE

  /** CoreRequirement.values(): every category, in declaration order. */
  const AllReqs: seq<Req> := [CA, WOC, QL, RGP, SI, LOTE, IP, CE, CIE]

  /** The number of categories, the length of values(). */
  const NumReqs: nat := 9

  /** ordinal(): the position of the category in values(). */
  function Ordinal(r: Req): (i: nat)
    ensures i < NumReqs == |AllReqs| && AllReqs[i] == r
  {
    match r
    case CA => 0
    case WOC => 1
    case QL => 2
    case RGP => 3
    case SI => 4
    case LOTE => 5
    case IP => 6
    case CE => 7
    case CIE => 8
  }

  /** name() and toString(): the identifier of the constant. */
  function Name(r: Req): string {
    match r
    case CA => "CA"
    case WOC => "WOC"
    case QL => "QL"
    case RGP => "RGP"
    case SI => "SI"
    case LOTE => "LOTE"
    case IP => "IP"
    case CE => "CE"
    case CIE => "CIE"
  }

  /** getTitle(): the full title fixed when the constant is declared. */
  function Title(r: Req): (t: string)
    ensures t != []
  {
    match r
    case CA => "Critical Analysis"
    case WOC => "Written and Oral Communication"
    case QL => "Quantitative Literacy"
    case RGP => "Race, Gender, and Power"
    case SI => "Scientific Inquiry"
    case LOTE => "Language Other Than English"
    case IP => "International Perspectives"
    case CE => "Community Engagement"
    case CIE => "Creativity, Innovation, and Experimentation"
  }

  /** getCredits(): the number of credits needed to satisfy the category. */
  function Threshold(r: Req): (n: int)
    ensures n > 0
  {
    match r
    case CA => 3
    case WOC => 7
    case QL => 3
    case RGP => 3
    case SI => 3
    case LOTE => 3
    case IP => 3
    case CE => 2
    case CIE => 3
  }

  /**
   * CoreRequirement.valueOf(s): the constant whose name is exactly s; None
   * stands for the IllegalArgumentException raised for any other string.
   */
  function ValueOf(s: string): (r: Option<Req>)
    ensures r.Some? ==> Name(r.value) == s
  {
    if s == "CA" then Some(CA)
    else if s == "WOC" then Some(WOC)
    else if s == "QL" then Some(QL)
    else if s == "RGP" then Some(RGP)
    else if s == "SI" then Some(SI)
    else if s == "LOTE" then Some(LOTE)
    else if s == "IP" then Some(IP)
    else if s == "CE" then Some(CE)
    else if s == "CIE" then Some(CIE)
    else None
  }

  /** valueOf finds every constant by its name, so names and constants are in one-to-one correspondence. */
  lemma ValueOfName(r: Req)
    ensures ValueOf(Name(r)) == Some(r)
  {
  }

  /** values() lists nine distinct categories, each at its ordinal. */
  lemma AllReqsExact()
    ensures |AllReqs| == NumReqs == 9
    ensures forall i, j :: 0 <= i < j < |AllReqs| ==> AllReqs[i] != AllReqs[j]
    ensures forall i :: 0 <= i < |AllReqs| ==> Ordinal(AllReqs[i]) == i
  {
  }

  /** The category at position n of values() has ordinal n. */
  lemma OrdinalAt(n: nat)
    requires n < NumReqs
    ensures Ordinal(AllReqs[n]) == n
  {
    AllReqsExact();
  }

  /** Written and Oral Communication needs 7 credits, Community Engagement 2, every other category 3. */
  lemma ThresholdTable(r: Req)
    ensures r == WOC ==> Threshold(r) == 7
    ensures r == CE ==> Threshold(r) == 2
    ensures r != WOC && r != CE ==> Threshold(r) == 3
  {
  }

  /** No category's name contains a line break, a space or a comma. */
  lemma NameIsOneWord(r: Req)
    ensures Name(r) != [] && '\n' !in Name(r) && ' ' !in Name(r) && ',' !in Name(r)
  {
  }
}
