/** Task statuses, events and transition table. */
module TaskStateMachine {
  import opened Wrappers

  datatype Status = Queued | Downloading | Downloaded | Uploading | Completed | Failed | Cancelled

  datatype Event = StartDownload | FinishDownload | StartUpload | StartStreamUpload | Complete | Fail | Cancel
                 | Retry | ResetUpload | ResetStreamDownload | ResetStalled

  predicate Terminal(s: Status) {
    s == Completed || s == Failed || s == Cancelled
  }

  predicate Active(s: Status) {
    s == Queued || s == Downloading || s == Downloaded || s == Uploading
  }

  function To(e: Event): Status {
    match e
    case StartDownload => Downloading
    case FinishDownload => Downloaded
    case StartUpload => Uploading
    case StartStreamUpload => Uploading
    case Complete => Completed
    case Fail => Failed
    case Cancel => Cancelled
    case Retry => Queued
    case ResetUpload => Downloaded
    case ResetStreamDownload => Downloading
    case ResetStalled => Queued
  }

  function From(e: Event): set<Status> {
    match e
    case StartDownload => {Queued, Downloading}
    case FinishDownload => {Downloading, Downloaded}
    case StartUpload => {Downloaded, Uploading}
    case StartStreamUpload => {Downloading, Uploading}
    case Complete => {Queued, Downloading, Downloaded, Uploading, Completed}
    case Fail => {Queued, Downloading, Downloaded, Uploading, Failed}
    case Cancel => {Queued, Downloading, Downloaded, Uploading, Cancelled}
    case Retry => {Queued, Downloading, Downloaded, Uploading, Failed}
    case ResetUpload => {Downloaded, Uploading}
    case ResetStreamDownload => {Downloading, Uploading, Failed}
    case ResetStalled => {Downloading, Downloaded, Uploading}
  }

  /** The event a bare target status stands for: the plain one that leads there, never a streaming or reset one. */
  function EventForTarget(s: Status): (e: Event)
    ensures To(e) == s && e !in {StartStreamUpload, ResetUpload, ResetStreamDownload, ResetStalled}
  {
    match s
    case Queued => Retry
    case Downloading => StartDownload
    case Downloaded => FinishDownload
    case Uploading => StartUpload
    case Completed => Complete
    case Failed => Fail
    case Cancelled => Cancel
  }

  /** `transitionStatus` takes an event or a target status; anything else throws. */
  datatype Request = ByEvent(event: Event) | ByStatus(status: Status) | Unknown {
    function Resolve(): Option<Event> {
      match this
      case ByEvent(e) => Some(e)
      case ByStatus(s) => Some(EventForTarget(s))
      case Unknown => None
    }
  }

  predicate Allowed(s: Status, e: Event) {
    s in From(e)
  }

  /** Some event leads from `a` to `b`. */
  predicate Edge(a: Status, b: Status) {
    exists e :: Allowed(a, e) && To(e) == b
  }

  /** Which statuses each status can be left for: COMPLETED and CANCELLED are absorbing, FAILED is not. */
  predicate Reaches(a: Status, b: Status) {
    match a
    case Queued => b != Downloaded && b != Uploading
    case Downloading => true
    case Downloaded => b != Downloading
    case Uploading => true
    case Completed => b == Completed
    case Failed => b == Failed || b == Queued || b == Downloading
    case Cancelled => b == Cancelled
  }

  lemma EdgesExactly(a: Status, b: Status)
    ensures Edge(a, b) <==> Reaches(a, b)
  {
    if Edge(a, b) {
      var e :| Allowed(a, e) && To(e) == b;
      TableReaches(a, e);
    }
    if Reaches(a, b) {
      var e := if a == b && a == Queued then Retry
               else if b == Downloading && a != Queued && a != Downloading then ResetStreamDownload
               else if b == Downloaded && a == Uploading then ResetUpload
               else if b == Uploading && a == Downloading then StartStreamUpload
               else EventForTarget(b);
      assert Allowed(a, e) && To(e) == b;
    }
  }

  lemma TableReaches(a: Status, e: Event)
    requires Allowed(a, e)
    ensures Reaches(a, To(e))
  {
  }

  /** The stage a transfer has reached, if it is under way. */
  function Stage(s: Status): int {
    match s
    case Queued => 0
    case Downloading => 1
    case Downloaded => 2
    case Uploading => 3
    case _ => -1
  }

  /** The table by the kinds of its events: the three plain steps go on by one stage or repeat; the streaming start
      skips the stage between; the endings take any transfer under way, and repeat; a retry takes all but what ended
      well or by the user; the resets go back. */
  lemma TableExactly(s: Status, e: Event)
    ensures e in {StartDownload, FinishDownload, StartUpload} ==>
              (Allowed(s, e) <==> 0 <= Stage(s) && Stage(To(e)) - 1 <= Stage(s) <= Stage(To(e)))
    ensures e in {Complete, Fail, Cancel} ==> (Allowed(s, e) <==> 0 <= Stage(s) || s == To(e))
    ensures e == StartStreamUpload ==> To(e) == Uploading && (Allowed(s, e) <==> Stage(s) == 1 || Stage(s) == 3)
    ensures e == Retry ==> (Allowed(s, e) <==> s !in {Completed, Cancelled})
    ensures e == ResetUpload ==> To(e) == Downloaded && (Allowed(s, e) <==> Stage(s) >= 2)
    ensures e == ResetStreamDownload ==>
              To(e) == Downloading && (Allowed(s, e) <==> Stage(s) == 1 || Stage(s) == 3 || s == Failed)
    ensures e == ResetStalled ==> To(e) == Queued && (Allowed(s, e) <==> Stage(s) >= 1)
  {
  }
}
