/** What the three OTP readers have in common: how a call to an external
    command-line tool ends, and the errors the readers reject with. */
module OtpCommon {
  /** One `execFile` call: the tool's standard output, or a rejection
      (missing binary, refused permission, non-zero exit status). */
  datatype ToolRun = Exited(stdout: string) | Rejected

  /** The ways an OTP reader's promise rejects: an `Error` the reader throws
      itself (with its message), the rejection of a tool call passed on
      unchanged, or an error of the SMS provider's API passed on unchanged. */
  datatype OtpError = Thrown(message: string) | ToolFailed | ApiFailed
}
