/** Hardware addresses of the daemon's hosts. */
module Addresses {
  /** Addresses are only ever compared for equality. */
  type Address(==, !new)
}
