/** The part of the ledger's error enumeration that the digest conversions return. */
module SuiErrors {

  /**
   * `SuiError`: only the variant the digest slice conversions use is modelled.
   * It is returned by both the transaction and the object digest conversion.
   */
  datatype SuiError = InvalidTransactionDigest
}
