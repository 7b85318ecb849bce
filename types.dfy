/** Values the VisitorBook contract exchanges with its callers and its host:
    addresses, 256-bit amounts, the four error kinds and the Visit event. */
module Types {

  /** A 160-bit account address; only equality is ever used on it. */
  newtype Address = a: int | 0 <= a < 0x1_0000_0000_0000_0000_0000_0000_0000_0000_0000_0000

  /** An unsigned 256-bit integer (`uint256` / `U256`). */
  type U256 = x: nat | x < 0x1_0000_0000_0000_0000_0000_0000_0000_0000_0000_0000_0000_0000_0000_0000_0000_0000

  /** The four errors a caller can observe, with the data each carries. */
  datatype Error =
    | InsufficientPayment(visitor: Address, payment: U256)
    | TransferFailed(recipient: Address, amount: U256)
    | AlreadyVisited
    | IndexOutOfBounds

  datatype Result<T> = Ok(value: T) | Err(error: Error)

  datatype Option<T> = None | Some(value: T)

  /** The `Visit` event: who signed and the message they left. */
  datatype Visit = Visit(sender: Address, message: string)

  /** A value transfer the contract attempts from its own balance. */
  datatype Payout = Payout(recipient: Address, amount: U256)
}
