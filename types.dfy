/** Fixed-width integer types of main.c and the failures it reports through fatal(). */
module Types {

  type uint8 = x: int | 0 <= x < 0x100
  type uint16 = x: int | 0 <= x < 0x1_0000
  type uint32 = x: int | 0 <= x < 0x1_0000_0000

  /** The conditions under which main.c calls fatal(). */
  datatype Error =
    | ShortRead                                       // reply not longer than the echoed request
    | ChecksumFailed(computed: uint8, received: uint8) // trailer of the ECU part is wrong
    | NoChallenge                                     // "Could not retrieve challenge"
    | LoginFailed                                     // no 0x67 at byte 14 after sending the key
    | PartialBlock                                    // memory chunk reply under 53 bytes

  /** fatal() ends the process; here the failing step returns Err instead. */
  datatype Result<T> = Ok(value: T) | Err(error: Error)

  function Min(a: int, b: int): int
  {
    if a <= b then a else b
  }

  /** The last element of a non-empty sequence. */
  function Last<T>(s: seq<T>): T
    requires |s| > 0
  {
    s[|s| - 1]
  }

  /** Appending to a log after its first part is appending to the whole log. */
  /** Concatenation regroups freely. */
  lemma Assoc<T>(a: seq<T>, b: seq<T>, c: seq<T>)
    ensures a + (b + c) == a + b + c
  {
  }

  lemma AppendAfter<T>(a: seq<T>, b: seq<T>, x: T)
    ensures a + (b + [x]) == a + b + [x]
  {
  }
}
