/** The client record and the get_ukg_report entry point: check the
    arguments, authenticate, resolve the report path, fetch with retries and
    decode. */
module ReportService {
  import opened Outcomes
  import opened ReportDecoder
  import opened ReportJob
  import opened RetryPolicy

  /** The five constructor arguments of UltiProClient, any of which a caller
      may leave as None. */
  datatype Credentials = Credentials(
    username: Option<string>,
    password: Option<string>,
    clientAccessKey: Option<string>,
    userAccessKey: Option<string>,
    baseUrl: Option<string>)

  /** A constructed UltiProClient: every credential field is present. */
  datatype Client = Client(
    username: string,
    password: string,
    clientAccessKey: string,
    userAccessKey: string,
    baseUrl: string)

  predicate Complete(c: Credentials) {
    c.username.Some? && c.password.Some? && c.clientAccessKey.Some?
      && c.userAccessKey.Some? && c.baseUrl.Some?
  }

  /** UltiProClient(...): succeeds exactly when all five fields are given,
      and then keeps them unchanged. */
  function NewClient(c: Credentials): (r: Result<Client>)
    ensures r.Ok? <==> Complete(c)
    ensures r.Ok? ==> r.value == Client(c.username.value, c.password.value,
                                        c.clientAccessKey.value, c.userAccessKey.value, c.baseUrl.value)
    ensures r.Err? ==> r.error == MissingCredential
  {
    if c.username.None? || c.password.None? || c.clientAccessKey.None?
       || c.userAccessKey.None? || c.baseUrl.None?
    then Err(MissingCredential)
    else Ok(Client(c.username.value, c.password.value,
                   c.clientAccessKey.value, c.userAccessKey.value, c.baseUrl.value))
  }

  /** Python truthiness of an optional string: present and non-empty. */
  predicate Truthy(s: Option<string>) {
    s.Some? && s.value != []
  }

  /** The report path get_ukg_report submits: a truthy explicit path as it
      is, otherwise the path the name maps to; a name absent from the map
      (or no name at all) is an error. */
  function ResolvePath(report: Option<string>, reportPath: Option<string>, paths: map<string, string>)
    : (r: Result<string>)
    ensures Truthy(reportPath) ==> r == Ok(reportPath.value)
    ensures !Truthy(reportPath) ==> (r.Ok? <==> report.Some? && report.value in paths)
    ensures !Truthy(reportPath) && r.Ok? ==> r.value == paths[report.value]
    ensures r.Err? ==> r.error == UnknownReportName
  {
    if Truthy(reportPath) then Ok(reportPath.value)
    else if report.Some? && report.value in paths then Ok(paths[report.value])
    else Err(UnknownReportName)
  }

  /** get_ukg_report: the argument check comes first, then the client and
      its authentication, then the path lookup, then the retried fetch, and
      only a fetched payload is decoded. `authenticates` says whether the
      Authenticate call succeeds; `attempts` scripts the service for each
      outer attempt. */
  method GetReport(credentials: Credentials, authenticates: bool, paths: map<string, string>,
                   report: Option<string>, reportPath: Option<string>,
                   attempts: seq<Attempt>, retries: nat)
    returns (result: Result<Table>)
    requires Scripted(attempts, retries)
    ensures report.None? && reportPath.None? ==> result == Err(MissingReportIdentifier)
    ensures (report.Some? || reportPath.Some?) && !Complete(credentials)
      ==> result == Err(MissingCredential)
    ensures (report.Some? || reportPath.Some?) && Complete(credentials) && !authenticates
      ==> result == Err(AuthenticationFailed)
    ensures (report.Some? || reportPath.Some?) && Complete(credentials) && authenticates
      && ResolvePath(report, reportPath, paths).Err?
      ==> result == Err(UnknownReportName)
    ensures (report.Some? || reportPath.Some?) && Complete(credentials) && authenticates
      && ResolvePath(report, reportPath, paths).Ok?
      ==> result == match RetryOutcome(attempts, retries)
                    case Ok(data) => Ok(Decode(data))
                    case Err(e) => Err(e)
  {
    if report.None? && reportPath.None? {
      return Err(MissingReportIdentifier);
    }
    var client := NewClient(credentials);
    if client.Err? {
      return Err(client.error);
    }
    if !authenticates {
      return Err(AuthenticationFailed);
    }
    var path := ResolvePath(report, reportPath, paths);
    if path.Err? {
      return Err(path.error);
    }
    var tries, waits, data := FetchWithRetries(attempts, retries);
    if data.Err? {
      return Err(data.error);
    }
    var columnNames, allData := DecodeReport(data.value);
    result := Ok(Table(columnNames, allData));
  }
}
