/** The data shapes the user store persists: a user record and the reports in
    its history, together with the Option and Result wrappers the model uses
    for absent values and thrown errors. */
module Types {

  /** An absent value (an unset storage key, `null`, `undefined`) or a present one. */
  datatype Option<+T> = None | Some(value: T) {
    /** The value, or `default` when absent (the `x || default` idiom). */
    function GetOr(default: T): T {
      match this
      case Some(v) => v
      case None => default
    }
  }

  /** The result of a handler that either returns or throws. */
  datatype Result<+T, +E> = Ok(value: T) | Err(error: E)

  /** The query a report was generated for. */
  datatype AnalysisInput = AnalysisInput(
    keyword: string,
    region: string,
    platform: string,
    rawAdText: Option<string>)

  /** One generated intelligence report. The generated sections (summary,
      demographics, strategy, ...) are never inspected by the store and are
      kept as one opaque payload. */
  datatype Report = Report(
    id: string,
    timestamp: int,
    input: AnalysisInput,
    sections: string)

  /** One employee record. A record written by an older revision may lack its
      history, hence the Option. */
  datatype User = User(
    email: string,
    fullName: string,
    role: string,
    department: string,
    joinedDate: int,
    analysisHistory: Option<seq<Report>>)

  /** The user's reports, newest first; a missing history counts as empty. */
  function History(u: User): seq<Report> {
    u.analysisHistory.GetOr([])
  }
}
