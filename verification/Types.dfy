/** Domain types shared by the order book, the matching engine and the exchange layer. */
module Types {

  datatype Option<+T> = None | Some(value: T)

  datatype Side = Buy | Sell {
    function Opposite(): Side {
      if Buy? then Sell else Buy
    }
  }

  /** Moduli of the unsigned 32-bit and 64-bit integers of the program. */
  const U32: nat := 0x1_0000_0000
  const U64: nat := 0x1_0000_0000_0000_0000

  datatype Trade = Trade(
    sequence: nat,
    buyId: nat,
    sellId: nat,
    buyAccount: nat,
    sellAccount: nat,
    price: nat,
    quantity: nat)
}
