/**
 * The TX hardware-timestamp cookie of the ICSSG driver.
 *
 * A timestamp request sent to the firmware carries a cookie, the index of
 * the `tx_ts_skb` slot holding the skb; the table has
 * `PRUETH_MAX_TX_TS_REQUESTS` slots. The firmware answers with an
 * `emac_tx_ts_response` naming the cookie as a 32-bit word.
 */
module TxTimestamp {
  import opened Common

  const PRUETH_MAX_TX_TS_REQUESTS: nat := 50

  /** A cookie is an index into `tx_ts_skb`. */
  type Cookie = c: int | 0 <= c < PRUETH_MAX_TX_TS_REQUESTS

  /** `struct emac_tx_ts_response`. */
  datatype TxTsResponse = TxTsResponse(reserved0: u32, reserved1: u32, cookie: u32, loTs: u32, hiTs: u32)

  /** The slot table `tx_ts_skb`, one entry per cookie; `None` is a NULL slot. */
  type TsTable<T> = t: seq<Option<T>> | |t| == PRUETH_MAX_TX_TS_REQUESTS
    witness seq(PRUETH_MAX_TX_TS_REQUESTS, _ => None)

  /** The cookie a response names, if it is one the table can hold. */
  function ResponseCookie(r: TxTsResponse): (c: Option<Cookie>)
    ensures c.Some? <==> (r.cookie as int) < PRUETH_MAX_TX_TS_REQUESTS
    ensures c.Some? ==> c.value == r.cookie as int
  {
    if (r.cookie as int) < PRUETH_MAX_TX_TS_REQUESTS then Some(r.cookie as int) else None
  }

  /** The word a cookie is sent and answered as. */
  function CookieWord(c: Cookie): (w: u32)
    ensures w as int == c
  {
    c as u32
  }

  /** A cookie sent out is recognised when the firmware echoes it back. */
  lemma CookieRoundTrip(c: Cookie, reserved0: u32, reserved1: u32, lo: u32, hi: u32)
    ensures ResponseCookie(TxTsResponse(reserved0, reserved1, CookieWord(c), lo, hi)) == Some(c)
  {
  }

  /**
   * The cookies are exactly the indices of the slot table. This restates the
   * length constraint of `TsTable` against the range of `Cookie`: the two
   * types are declared with the same bound, so any cookie indexes any table.
   */
  lemma CookiesAreTableIndices<T>(table: TsTable<T>, i: int)
    ensures 0 <= i < |table| <==> 0 <= i < PRUETH_MAX_TX_TS_REQUESTS
  {
  }

  /** Distinct cookies go out as distinct words, so a response names one slot. */
  lemma CookieWordInjective(c: Cookie, d: Cookie)
    ensures CookieWord(c) == CookieWord(d) <==> c == d
  {
  }
}
