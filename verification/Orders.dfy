/** Decoded orders, trade reports and the fixed-width conversions shared by the components. */
module Orders {

  const TWO_32: nat := 0x1_0000_0000
  const TWO_63: nat := 0x8000_0000_0000_0000
  const TWO_64: nat := 0x1_0000_0000_0000_0000

  const BUY: int := 1
  const SELL: int := 2

  /** Copies of a ClOrdID keep 31 characters, copies of a symbol 15. */
  const ID_LEN: nat := 31
  const SYMBOL_LEN: nat := 15

  datatype ParsedOrder = ParsedOrder(
    msgType: string, msgTypeChar: char, clOrdId: string, symbol: string,
    side: int, quantity: int, price: int, seqNum: nat)

  /** The value-initialised order every parser starts from. */
  const EMPTY_ORDER := ParsedOrder("", '?', "", "", 0, 0, 0, 0)

  datatype Trade = Trade(tradeId: nat, symbol: string, buyId: string, sellId: string,
                         price: int, qty: nat, ts: nat)

  /** Conversion of a signed value to 32 bits, unsigned. */
  function ToUint32(x: int): (r: nat)
    ensures r < 0x1_0000_0000
    ensures 0 <= x < 0x1_0000_0000 ==> r == x
    ensures -0x1_0000_0000 <= x < 0 ==> r == x + 0x1_0000_0000
  {
    x % TWO_32
  }

  predicate FitsInt32(x: int) {
    -0x8000_0000 <= x < 0x8000_0000
  }

  predicate FitsInt64(x: int) {
    -0x8000_0000_0000_0000 <= x < TWO_63
  }

  /** The NUL-terminated string at the start of a character buffer. */
  function CString(s: string): (r: string)
    ensures |r| <= |s| && r == s[..|r|] && '\0' !in r
    ensures |r| < |s| ==> s[|r|] == '\0'
  {
    if s == [] || s[0] == '\0' then [] else [s[0]] + CString(s[1..])
  }

  /** `t` is `s` up to its first NUL, or its first `n` characters if that is less. */
  predicate Shortened(t: string, s: string, n: nat) {
    && |t| <= n && |t| <= |s| && t == s[..|t|] && '\0' !in t
    && (|t| < n && |t| < |s| ==> s[|t|] == '\0')
  }

  /** What a bounded character-buffer copy of `s` holds, read back as a NUL-terminated string. */
  function Copy(s: string, n: nat): (r: string)
    ensures Shortened(r, s, n)
  {
    CString(if |s| <= n then s else s[..n])
  }

  lemma ShortenedOnce(t: string, u: string, s: string, n: nat)
    requires Shortened(t, s, n) && Shortened(u, s, n)
    ensures t == u
  {
  }

  /** Text without a NUL is kept whole if it fits, and otherwise cut to the length of the buffer. */
  lemma ShortenedText(t: string, s: string, n: nat)
    requires Shortened(t, s, n) && '\0' !in s
    ensures t == if |s| <= n then s else s[..n]
  {
    assert |t| < |s| ==> s[|t|] in s;
  }

  /** Copying a copy changes nothing: the passive identifier in a report is the stored one. */
  lemma CopyTwice(s: string, n: nat)
    ensures Copy(Copy(s, n), n) == Copy(s, n)
  {
    ShortenedText(Copy(Copy(s, n), n), Copy(s, n), n);
  }
}
