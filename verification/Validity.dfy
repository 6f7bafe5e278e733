/** Validity windows and the certificate-level failures of the validator. */
module Validity {
  import opened Wrappers

  datatype CertificateValidationError =
    | NotYetValid
    | Expired
    | NotACa
    | MissingKeyUsage
    | MissingExtendedKeyUsage

  datatype CertificateValidity = CertificateValidity(notBefore: Time, notAfter: Time)
  {
    /** Both end points belong to the window (section 4.1.2.5 of RFC 5280). */
    function Validate(now: Time): Result<(), CertificateValidationError> {
      if now < notBefore then Err(NotYetValid)
      else if now > notAfter then Err(Expired)
      else Ok(())
    }
  }

  lemma ValidityExactly(validity: CertificateValidity, now: Time)
    ensures validity.Validate(now).Ok? <==> validity.notBefore <= now <= validity.notAfter
    ensures validity.Validate(now) == Err(NotYetValid) <==> now < validity.notBefore
    ensures validity.Validate(now) == Err(Expired) <==> validity.notBefore <= now && validity.notAfter < now
  {
  }
}
