/** Outcomes of the catalog's handlers: a value, or one of the errors the routers report. */
module Results {

  datatype Option<+T> = None | Some(value: T) {
    function GetOr(default: T): T {
      if Some? then value else default
    }
  }

  /** What is wrong with one variant entry of a create or update request. */
  datatype VariantProblem =
    | SkuRequired
    | VariantNameRequired
    | DuplicateSku
    | NegativePrice
    | NegativeInventory

  /** Why a request was refused by the handler itself (HTTP 400). */
  datatype Reason =
    | ProductNameRequired
    | InvalidStatus
    | UnknownCategory
    | VariantsRequired
    | BadVariant(index: nat, problem: VariantProblem)  // index counts from 0
    | BadVariantUpdate(problem: VariantProblem)
    | LastVariant

  /** A schema constraint that the store refused; the routers surface it as a caught exception (HTTP 500). */
  datatype Fault =
    | StatusCheck
    | ForeignKey
    | UniqueSku
    | UniqueCategoryName
    | PriceCheck
    | InventoryCheck

  datatype Error = NotFound | Rejected(reason: Reason) | Failed(fault: Fault)

  datatype Result<+T> = Ok(value: T) | Err(error: Error)
}
