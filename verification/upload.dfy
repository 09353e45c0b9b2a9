/** The size gate `handleFileChange` applies to a chosen file before reading it. */
module Upload {

  const MaxFileSizeMB: nat := 30
  const MaxFileSizeBytes: nat := MaxFileSizeMB * 1024 * 1024

  /** What the gate decides: the file is read, or it is refused with the message the
      user is shown. */
  datatype SizeCheck = Accepted | TooLarge(message: string)

  /** A file is refused exactly when it is larger than 30 MiB; a file of exactly
      30 MiB is still read. */
  function CheckFileSize(size: nat): (d: SizeCheck)
    ensures d.Accepted? <==> size <= 31457280
    ensures d.TooLarge? ==> d.message == "File is too large. Maximum size is 30MB."
  {
    if size > MaxFileSizeBytes then TooLarge("File is too large. Maximum size is 30MB.")
    else Accepted
  }

  /** The boundary: 31457280 bytes is accepted, one byte more is not. */
  lemma CheckFileSizeBoundary()
    ensures CheckFileSize(30 * 1024 * 1024) == Accepted
    ensures CheckFileSize(30 * 1024 * 1024 + 1).TooLarge?
  {
  }
}
