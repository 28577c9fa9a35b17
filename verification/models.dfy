/**
 * The records the request log stores (src/models.rs) and the fixed-width
 * integer types they are built from.
 */
module Models {

  /** Rust's `u64`. */
  newtype u64 = x: int | 0 <= x <= 0xFFFF_FFFF_FFFF_FFFF

  /** Rust's `i64`. */
  newtype i64 = x: int | -0x8000_0000_0000_0000 <= x <= 0x7FFF_FFFF_FFFF_FFFF

  /** Rust's `u8`, one byte of a request body. */
  newtype u8 = x: int | 0 <= x <= 0xFF

  const U64_MAX: u64 := 0xFFFF_FFFF_FFFF_FFFF

  /** Rust's `Option`. */
  datatype Option<T> = None | Some(value: T)

  /**
   * One captured request (`method` is spelled `httpMethod`, since `method` is a
   * Dafny keyword). `headers` keeps the pairs in arrival order and may
   * repeat a name; `body` holds raw bytes and may be empty.
   */
  datatype StoredRequest = StoredRequest(
    id: u64,
    tsMs: i64,
    httpMethod: string,
    path: string,
    headers: seq<(string, string)>,
    body: seq<u8>)

  /** The answer of `GET /latest`; `count` is a `usize`, 64 bits wide here. */
  datatype LatestResponse = LatestResponse(count: u64, items: seq<StoredRequest>)
}
