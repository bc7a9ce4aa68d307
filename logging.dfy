/**
  The log sink that the logger context hands to every page: an
  append-only list of messages with a level, shown in a drawer.
 */
module Logging {

  /** The two events the application logs, with the text each shows. */
  datatype Message =
    | ShortenMessage(url: string, code: string)
    | RedirectMessage(code: string, url: string)
  {
    function Text(): string {
      match this
      case ShortenMessage(url, code) => "Shortened " + url + " -> " + code
      case RedirectMessage(code, url) => "Redirected " + code + " to " + url
    }
  }

  /** One log line. The wall-clock time the source stamps on it is not
      part of the model. */
  datatype LogEntry = LogEntry(msg: Message, level: string)

  /** The level `log` uses when its caller names none. */
  const Info := "info"

  class Logger {
    var logs: seq<LogEntry>

    constructor ()
      ensures logs == []
    {
      logs := [];
    }

    /** Appends exactly one entry at the end; earlier entries stay as they were. */
    method Log(msg: Message, level: string)
      modifies this
      ensures logs == old(logs) + [LogEntry(msg, level)]
      ensures |logs| == |old(logs)| + 1 && logs[..|old(logs)|] == old(logs)
    {
      logs := logs + [LogEntry(msg, level)];
    }
  }
}
