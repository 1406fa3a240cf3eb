/** The ISO 7816-4 status words the applets answer with. */
module StatusWords {
  type Sw = nat

  const OK: Sw := 0x9000
  const WRONG_LENGTH: Sw := 0x6700
  const WRONG_DATA: Sw := 0x6A80
  const FUNCTION_NOT_SUPPORTED: Sw := 0x6A81
  const FILE_NOT_FOUND: Sw := 0x6A82
  const NOT_ENOUGH_MEMORY: Sw := 0x6A84
  const INCORRECT_PARAMETERS: Sw := 0x6A86
  const REFERENCED_DATA_NOT_FOUND: Sw := 0x6A88
  const SECURITY_STATUS: Sw := 0x6982
  const BLOCKED: Sw := 0x6983
  /** OATH uses one code for a missing object, a disabled and a failed authentication. */
  const OATH_OBJECT_NOT_FOUND: Sw := 0x6984
  const AUTH_NOT_ENABLED: Sw := 0x6984
  const AUTHENTICATION_FAILED: Sw := 0x6984
  const CONDITIONS: Sw := 0x6985
  const INS_NOT_SUPPORTED: Sw := 0x6D00
  const NO_DIAGNOSIS: Sw := 0x6F00
  /** Internal to the card: the applet wants the user's presence first. */
  const PRESENCE_REQUIRED: Sw := 0x6FF0

  function RetriesLeft(n: nat): Sw { 0x63C0 + n % 16 }

  predicate IsRetry(sw: Sw) { 0x63C0 <= sw < 0x63D0 }
}
