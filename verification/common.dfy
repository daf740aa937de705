/**
 Values shared by both editors: optional values (the source's `null` and
 `undefined`), the outcome of a call to the remote API, and the alerts an
 editor hands to the application shell.
 */
module Common {

  /** `None` stands for a JavaScript `null` or `undefined`. */
  datatype Option<+T> = None | Some(value: T)

  /** What one request to the remote API settled with: the entity it returned,
      or its error payload already normalised into display strings. */
  datatype ApiOutcome<+T> = Ok(value: T) | Err(errors: seq<string>)

  /** The two alert styles the editors use. */
  datatype AlertType = Success | Danger

  /** A toast notification, as passed to the application's alert list. */
  datatype Alert = Alert(message: string, kind: AlertType)

  /** The result of one UI handler: the editor afterwards and the alerts it raised. */
  datatype Step<E> = Step(editor: E, alerts: seq<Alert>)

  /** One danger alert per message, in order: how every handler turns a
      list of error strings into alerts. */
  function DangerAlerts(messages: seq<string>): (r: seq<Alert>)
    ensures |r| == |messages|
    ensures forall i :: 0 <= i < |r| ==> r[i].message == messages[i] && r[i].kind == Danger
  {
    seq(|messages|, i requires 0 <= i < |messages| => Alert(messages[i], Danger))
  }
}
