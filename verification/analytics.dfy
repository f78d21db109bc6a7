/** The run's `analytics` dictionary, and the Python list the row resolver appends rejects to. */
module RunAnalytics {

  /** The dictionary as a value: what the content cache stores beside the cleaned rows. */
  datatype Record = Record(
    totalRows: nat, validEmails: nat, birthdaysFound: nat, emailsSent: nat,
    sendFailures: nat, corrections: seq<string>, invalidEmails: seq<string>, skippedSends: nat)

  /** The dictionary itself, whose entries the run updates in place. */
  class Analytics {
    var totalRows: nat
    var validEmails: nat
    var birthdaysFound: nat
    var emailsSent: nat
    var sendFailures: nat
    var corrections: seq<string>
    var invalidEmails: seq<string>
    var skippedSends: nat

    function ToRecord(): Record
      reads this
    {
      Record(totalRows, validEmails, birthdaysFound, emailsSent,
        sendFailures, corrections, invalidEmails, skippedSends)
    }

    /** Every counter zero and both lists empty, as a run starts. */
    constructor ()
      ensures ToRecord() == Record(0, 0, 0, 0, 0, [], [], 0)
    {
      totalRows, validEmails, birthdaysFound, emailsSent := 0, 0, 0, 0;
      sendFailures, corrections, invalidEmails, skippedSends := 0, [], [], 0;
    }

    /** The dictionary read back from the cache. */
    constructor FromRecord(r: Record)
      ensures ToRecord() == r
    {
      totalRows, validEmails, birthdaysFound, emailsSent := r.totalRows, r.validEmails, r.birthdaysFound, r.emailsSent;
      sendFailures, corrections, invalidEmails, skippedSends := r.sendFailures, r.corrections, r.invalidEmails, r.skippedSends;
    }
  }

  /** A Python list of strings owned by one caller and appended to by another. */
  class TextList {
    var items: seq<string>

    constructor ()
      ensures items == []
    {
      items := [];
    }
  }
}
