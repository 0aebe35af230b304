/** The layout constants of the record store (src/main.rs, lines 3-15). */
module Constants {

  /** Rust `u8` and `u32`, as bounded integers. */
  type u8 = b: int | 0 <= b < 0x100
  type u32 = x: int | 0 <= x < 0x1_0000_0000

  const COLUMN_USERNAME_SIZE: nat := 32
  const COLUMN_EMAIL_SIZE: nat := 255
  /** `size_of::<u32>()` */
  const ID_SIZE: nat := 4
  const USERNAME_SIZE: nat := COLUMN_USERNAME_SIZE
  const EMAIL_SIZE: nat := COLUMN_EMAIL_SIZE
  const ID_OFFSET: nat := 0
  const USERNAME_OFFSET: nat := ID_OFFSET + ID_SIZE
  const EMAIL_OFFSET: nat := USERNAME_OFFSET + USERNAME_SIZE
  const ROW_SIZE: nat := ID_SIZE + USERNAME_SIZE + EMAIL_SIZE
  const PAGE_SIZE: nat := 4096
  const TABLE_MAX_PAGES: nat := 100
  const ROWS_PER_PAGE: nat := PAGE_SIZE / ROW_SIZE
  const TABLE_MAX_ROWS: nat := ROWS_PER_PAGE * TABLE_MAX_PAGES

  /** The values the derived constants take. */
  lemma DerivedConstants()
    ensures ROW_SIZE == 291 && USERNAME_OFFSET == 4 && EMAIL_OFFSET == 36
    ensures EMAIL_OFFSET + EMAIL_SIZE == ROW_SIZE
    ensures ROWS_PER_PAGE == 14 && TABLE_MAX_ROWS == 1400
    ensures ROWS_PER_PAGE * ROW_SIZE <= PAGE_SIZE < (ROWS_PER_PAGE + 1) * ROW_SIZE
  {
  }

  /** `n` zero bytes. */
  function Zeros(n: nat): (z: seq<u8>)
    ensures |z| == n && forall i :: 0 <= i < n ==> z[i] == 0
  {
    seq(n, _ => 0)
  }
}
