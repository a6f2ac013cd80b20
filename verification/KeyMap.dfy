/** The HTTP status table of src/key_map.cpp. */
module KeyMaps {
  import opened Words

  /** A text that fits on a line of a response head. */
  type LineText = s: string | s != "" && '\r' !in s && |s| < 64 witness "OK"

  datatype Status = Status(key: nat, text: LineText)

  const INFORMATIONAL: seq<Status> := [
    Status(100, "Continue"), Status(101, "Switching Protocols"), Status(102, "Processing")]

  const SUCCESSFUL: seq<Status> := [
    Status(200, "OK"), Status(201, "Created"), Status(202, "Accepted"), Status(203, "Non-Authoritative Information"),
    Status(204, "No Content"), Status(205, "Reset Content"), Status(206, "Partial Content"),
    Status(207, "Multi-status")]

  const REDIRECTION: seq<Status> := [
    Status(300, "Multiple Choices"), Status(301, "Moved Permanently"), Status(302, "Found"), Status(303, "See Other"),
    Status(304, "Not Modified"), Status(305, "Use Proxy"), Status(306, "(Unused)"), Status(307, "Temporary Redirect")]

  const CLIENT_ERROR: seq<Status> := [
    Status(400, "Bad Request"), Status(401, "Unauthorized"), Status(402, "Payment Required"), Status(403, "Forbidden"),
    Status(404, "Not Found"), Status(405, "Method Not Allowed"), Status(406, "Not Acceptable")]

  const CLIENT_ERROR_FROM_407: seq<Status> := [
    Status(407, "Proxy Authentication Required"), Status(408, "Request Timeout"), Status(409, "Conflict"),
    Status(410, "Gone"), Status(411, "Length Required"), Status(412, "Precondition Failed")]

  const CLIENT_ERROR_FROM_413: seq<Status> := [
    Status(413, "Request Entity Too Large"), Status(414, "Request-URI Too Long"), Status(415, "Unsupported Media Type")]

  const CLIENT_ERROR_FROM_416: seq<Status> := [
    Status(416, "Requested Range Not Satisfiable"), Status(417, "Expectation Failed")]

  const EXTENSION: seq<Status> := [
    Status(422, "Unprocessable Entity"), Status(423, "Locked"), Status(424, "Failed Dependency"),
    Status(426, "Upgrade Required")]

  const SERVER_ERROR: seq<Status> := [
    Status(500, "Internal Server Error"), Status(501, "Not Implemented"), Status(502, "Bad Gateway")]

  const SERVER_ERROR_FROM_503: seq<Status> := [
    Status(503, "Service Not Available"), Status(504, "Gateway Timeout"), Status(505, "HTTP Version Not Supported"),
    Status(507, "Insufficient Storage")]

  const CLIENT_ERRORS := CLIENT_ERROR + CLIENT_ERROR_FROM_407 + CLIENT_ERROR_FROM_413 + CLIENT_ERROR_FROM_416

  const STATUS_TABLE :=
    INFORMATIONAL + SUCCESSFUL + REDIRECTION + CLIENT_ERRORS + EXTENSION + SERVER_ERROR + SERVER_ERROR_FROM_503

  /** The statuses this server answers with. */
  predicate Answered(status: nat) {
    status in {200, 400, 403, 404, 414, 500, 501}
  }

  /** The table has an entry for every status the server answers with. */
  lemma AnsweredIsKnown(status: nat)
    requires Answered(status)
    ensures exists e :: e in STATUS_TABLE && e.key == status
  {
    assert SUCCESSFUL[0].key == 200 && SUCCESSFUL[0] in SUCCESSFUL;
    assert CLIENT_ERROR[0].key == 400 && CLIENT_ERROR[0] in CLIENT_ERROR;
    assert CLIENT_ERROR[3].key == 403 && CLIENT_ERROR[3] in CLIENT_ERROR;
    assert CLIENT_ERROR[4].key == 404 && CLIENT_ERROR[4] in CLIENT_ERROR;
    assert CLIENT_ERROR_FROM_413[1].key == 414 && CLIENT_ERROR_FROM_413[1] in CLIENT_ERROR_FROM_413;
    assert SERVER_ERROR[0].key == 500 && SERVER_ERROR[0] in SERVER_ERROR;
    assert SERVER_ERROR[1].key == 501 && SERVER_ERROR[1] in SERVER_ERROR;
  }

  /** The text of the first entry with the key. */
  method QueryHttpStatusString(status: nat) returns (text: Option<LineText>)
    ensures text.Some? ==> Status(status, text.value) in STATUS_TABLE
    ensures text.None? ==> forall e | e in STATUS_TABLE :: e.key != status
  {
    hide *;
    for index := 0 to |STATUS_TABLE|
      invariant forall i | 0 <= i < index :: STATUS_TABLE[i].key != status
    {
      if STATUS_TABLE[index].key == status {
        return Some(STATUS_TABLE[index].text);
      }
    }
    text := None;
  }

  /** The table gives this text for the status. */
  predicate HasText(status: nat, text: LineText) {
    Status(status, text) in STATUS_TABLE
  }

  /** The texts of the statuses this server answers with. */
  lemma TextsOfAnswers(status: nat, text: LineText)
    requires HasText(status, text)
    ensures status == 200 ==> text == "OK"
    ensures status == 400 ==> text == "Bad Request"
    ensures status == 403 ==> text == "Forbidden"
    ensures status == 404 ==> text == "Not Found"
    ensures status == 414 ==> text == "Request-URI Too Long"
    ensures status == 500 ==> text == "Internal Server Error"
    ensures status == 501 ==> text == "Not Implemented"
  {
    var e := Status(status, text);
    if e in CLIENT_ERRORS {
      ClientTexts(e);
    } else {
      OtherTexts(e);
    }
  }

  lemma ClientTexts(e: Status)
    requires e in CLIENT_ERRORS
    ensures e.key == 400 ==> e.text == "Bad Request"
    ensures e.key == 403 ==> e.text == "Forbidden"
    ensures e.key == 404 ==> e.text == "Not Found"
    ensures e.key == 414 ==> e.text == "Request-URI Too Long"
    ensures 400 <= e.key < 418
  {
    if e in CLIENT_ERROR {
    } else if e in CLIENT_ERROR_FROM_407 {
    } else if e in CLIENT_ERROR_FROM_413 {
    } else {
      assert e in CLIENT_ERROR_FROM_416;
    }
  }

  lemma OtherTexts(e: Status)
    requires e in STATUS_TABLE && e !in CLIENT_ERRORS
    ensures e.key == 200 ==> e.text == "OK"
    ensures e.key == 500 ==> e.text == "Internal Server Error"
    ensures e.key == 501 ==> e.text == "Not Implemented"
    ensures !(400 <= e.key < 418)
  {
    if e in INFORMATIONAL {
    } else if e in SUCCESSFUL {
    } else if e in REDIRECTION {
    } else if e in EXTENSION {
    } else if e in SERVER_ERROR {
    } else {
      assert e in SERVER_ERROR_FROM_503;
    }
  }

  /** The lookup that has to succeed for every status the server answers with. */
  method TextOfAnswer(status: nat) returns (text: LineText)
    requires Answered(status)
    ensures HasText(status, text)
  {
    AnsweredIsKnown(status);
    var found := QueryHttpStatusString(status);
    text := found.value;
  }
}
