/**
 * The V1 error markers of IOCTL_PRIVCMD_MMAPBATCH. A V1 caller learns the
 * outcome of each entry from its own gfn array: the driver ORs one of two
 * marker bit patterns into the entries that failed, one for frames that are
 * paged out and one for every other failure.
 */
module V1Markers {
  import opened Kernel

  /** A guest frame number (xen_pfn_t). */
  type Gfn = bv64

  /**
   * PRIVCMD_MMAPBATCH_MFN_ERROR and PRIVCMD_MMAPBATCH_PAGED_ERROR, kept
   * as parameters: the driver only needs them to be distinct and non-zero.
   */
  datatype Markers = Markers(mfnError: Gfn, pagedError: Gfn) {
    predicate Usable() {
      mfnError != 0 && pagedError != 0 && mfnError != pagedError
    }

    /** The marker for a failure code: paged-out frames are told apart from other failures. */
    function For(err: int): (m: Gfn)
      ensures m == mfnError || m == pagedError
      ensures Usable() ==> (m == pagedError <==> err == -ENOENT)
    {
      if err == -ENOENT then pagedError else mfnError
    }

    /** A gfn after its result code is reported: unchanged when the entry was mapped. */
    function Mark(g: Gfn, err: int): Gfn
    {
      if err == 0 then g else g | For(err)
    }
  }
}
