/** Values shared by every module of the OVA builder: an optional value and
    the errors its operations report. */
module Failures {

  datatype Option<+T> = None | Some(value: T)

  /** Every error the OVA builder can return. The first three are the
      configuration errors of `OvaConfig.Validate`; the others stand for the
      errors of the operating system and of the tar writer. */
  datatype Error =
    | NoOvfFile                 // OvfFilePath is empty
    | NoFilesToInclude          // FilePathsToInclude is empty
    | NoOutputPath              // OutputFilePath is empty
    | StatFailed(path: string)  // os.Stat failed on path
    | OpenFailed(path: string)  // os.Open or os.OpenFile failed on path
    | ReadFailed(path: string)  // reading path failed while its body was copied
    | MissedBytes               // tar: a header was written before the previous body was complete
    | HeaderRejected            // tar: the output refused a header
    | BodyRejected              // tar: the output failed part-way through a body
    | WriteTooLong              // tar: more bytes were written than the header's size
}
