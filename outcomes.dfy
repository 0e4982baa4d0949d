/** The ways a report request can end, shared by every component. Each error
    stands for the Python exception the corresponding code path raises. */
module Outcomes {

  datatype Option<+T> = None | Some(value: T)

  datatype Error =
    | MissingCredential        // an `assert ... is not None` in UltiProClient.__init__ fails
    | MissingReportIdentifier  // get_ukg_report called with neither a name nor a path
    | AuthenticationFailed     // the Authenticate call raised
    | UnknownReportName        // the name is not a key of the report-path map
    | SubmissionFailed         // LogOnWithToken or ExecuteReport raised
    | RetrieveFailed           // a RetrieveReport call raised
    | MissingReportStream      // the last response carries no ReportStream to decode
    | ResponseUnbound          // the poll loop never ran, so `r` is unbound
    | DataUnbound              // no outer attempt succeeded, so `data` is unbound

  datatype Result<+T> = Ok(value: T) | Err(error: Error)
}
