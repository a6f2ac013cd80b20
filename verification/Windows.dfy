/** The arithmetic of the sliding file window, in 32-bit words. */
module Windows {
  import opened Words
  import opened ChunkQueues

  const WINDOW_SIZE := 64 * PAGE_SIZE

  /** Nothing is mapped, or `offset` lies outside of what the window fields say is mapped. */
  predicate NeedsRemap(sf: SendFile, offset: Uint32) {
    sf.mmapStart.None? || offset < sf.mmapOffset || offset >= Wrap(sf.mmapOffset + sf.mmapLen)
  }

  function WindowStart(offset: Uint32): Uint32 {
    offset - offset % PAGE_SIZE
  }

  /** 256 KiB from `start`, cut at the end of the range; the sum may wrap. */
  function WindowLength(start: Uint32, fileEnd: Uint32): (len: int) {
    if Wrap(start + WINDOW_SIZE) > fileEnd then fileEnd - start else WINDOW_SIZE
  }

  /**
   A new window starts on a page and covers `offset`: 256 KiB or up to the end of the range, and when its
   far end wraps, 256 KiB.
   */
  lemma RemapCovers(offset: Uint32, fileEnd: Uint32)
    requires offset < fileEnd
    ensures var start := WindowStart(offset); var len := WindowLength(start, fileEnd);
            && start % PAGE_SIZE == 0 && 0 < len <= WINDOW_SIZE && start <= offset < start + len
            && len == (if start + WINDOW_SIZE >= TWO_TO_THE_32 then WINDOW_SIZE else Min(WINDOW_SIZE, fileEnd - start))
            && offset - start < PAGE_SIZE
  {
    var start := WindowStart(offset);
    if start + WINDOW_SIZE >= TWO_TO_THE_32 {
      assert Wrap(start + WINDOW_SIZE) == start + WINDOW_SIZE - TWO_TO_THE_32;
    }
  }

  /** A window that is kept covers `offset` exactly: one whose far end wraps is never kept. */
  lemma KeptWindowCovers(sf: SendFile, offset: Uint32)
    requires !NeedsRemap(sf, offset)
    ensures sf.mmapOffset <= offset < sf.mmapOffset + sf.mmapLen < TWO_TO_THE_32
  {
  }
}
