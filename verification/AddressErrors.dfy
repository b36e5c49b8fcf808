/** The reasons a mailbox address is rejected (`src/errors.ts`). */
module AddressErrors {

  datatype Kind =
    | InvalidAddress
    | MissingAt
    | LocalPartEmpty
    | InvalidLocalPart
    | DomainEmpty
    | InvalidDomain
    | InvalidDomainLiteral
    | LocalPartTooLong
    | DomainTooLong
    | AddressTooLong
    | InvalidUtf8
    | InvalidLineEnding
    | InvalidHeaderValue
    | UnsupportedCharset
}
