/**
 * The backing file of the pager as a byte sequence: a positioned write
 * (`seek` to an offset, then `write_all`) and a positioned page read (`seek`,
 * then one `read` into a zeroed PAGE_SIZE buffer).
 */
module FileImage {
  import opened Constants
  import opened Layout

  /**
   * The file after writing `data` at `offset`. Writing past the end first
   * fills the gap with zero bytes; an empty write leaves the file as it is.
   */
  function WriteAt(file: seq<u8>, offset: nat, data: seq<u8>): (r: seq<u8>)
    ensures |data| == 0 ==> r == file
    ensures |data| > 0 ==> |r| == if offset + |data| > |file| then offset + |data| else |file|
  {
    if |data| == 0 then file
    else
      var padded := if offset <= |file| then file else file + Zeros(offset - |file|);
      padded[..offset] + data + (if offset + |data| < |padded| then padded[offset + |data|..] else [])
  }

  /** Byte `k` after a positioned write: the written byte inside the range, else the old byte, else a zero of the gap. */
  lemma WriteAtByte(file: seq<u8>, offset: nat, data: seq<u8>, k: nat)
    requires k < |WriteAt(file, offset, data)|
    ensures WriteAt(file, offset, data)[k]
            == if offset <= k < offset + |data| then data[k - offset] else if k < |file| then file[k] else 0
  {
  }

  /**
   * The buffer one `read` fills at `offset`: the file bytes that exist there,
   * up to PAGE_SIZE of them, then the zeros the buffer started with.
   */
  function ReadPage(file: seq<u8>, offset: nat): (page: Page)
    ensures forall k :: 0 <= k < PAGE_SIZE ==> page[k] == if offset + k < |file| then file[offset + k] else 0
  {
    if |file| <= offset then Zeros(PAGE_SIZE)
    else if offset + PAGE_SIZE <= |file| then file[offset..offset + PAGE_SIZE]
    else file[offset..] + Zeros(offset + PAGE_SIZE - |file|)
  }

  /** The number of pages a file of `len` bytes spans, counting a trailing partial page. */
  function NumPages(len: nat): (n: nat)
    ensures len <= n * PAGE_SIZE < len + PAGE_SIZE
  {
    if len % PAGE_SIZE != 0 then len / PAGE_SIZE + 1 else len / PAGE_SIZE
  }
}
