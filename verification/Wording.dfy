/** The words of the protocol and the limits of the server, written out. */
module Wording {
  import opened Bytes
  import opened Framing
  import opened Parser
  import opened Stream
  import opened Sockets
  import opened Reader
  import opened Responses
  import opened Transfer
  import UrlDecode
  import StaticPath
  import opened Dispatch
  import opened ClientHandler

  /** The bytes are the characters of the text. */
  predicate Spells(s: bytes, text: string) {
    |s| == |text| && forall i :: 0 <= i < |s| ==> s[i] as int == text[i] as int
  }

  lemma Punctuation()
    ensures Spells([COMMA, COLON, QUESTION, SLASH, SP, TAB, CR, LF, NUL], ",:?/ \t\r\n\0")
    ensures Spells([UrlDecode.PERCENT, UrlDecode.HASH, StaticPath.DOT], "%#.")
    ensures Spells(CRLF, "\r\n") && Spells(StaticPath.HERE, ".") && Spells(StaticPath.UP, "..")
  {}

  lemma FieldNames()
    ensures Spells(CONTENT_LENGTH, "Content-Length")
    ensures Spells(TRANSFER_ENCODING, "Transfer-Encoding")
    ensures Spells(CONNECTION, "Connection")
    ensures Spells(CONTENT_TYPE, "Content-Type")
    ensures Spells(SERVER, "Server")
    ensures Spells(ALLOW, "Allow")
  {}

  lemma FieldWords()
    ensures Spells(CHUNKED, "chunked") && Spells(CLOSE, "close") && Spells(KEEP_ALIVE, "keep-alive")
    ensures Spells(SERVER_NAME, "CinderHTTP/1.0")
    ensures Spells(OCTET_STREAM, "application/octet-stream")
    ensures Spells(GET_AND_HEAD, "GET, HEAD")
  {}

  lemma LineWords()
    ensures Spells(GET_TOKEN, "GET") && Spells(HEAD_TOKEN, "HEAD") && Spells(POST_TOKEN, "POST")
    ensures Spells(HTTP_SLASH, "HTTP/") && Spells(HTTP_1_0, "HTTP/1.0") && Spells(HTTP_1_1, "HTTP/1.1")
    ensures Spells(OK_REASON, "OK")
  {}

  lemma Paths()
    ensures Spells(API, "/api") && Spells(HEALTH_PATH, "/api/health")
    ensures Spells(ECHO_PATH, "/api/echo") && Spells(STATS_PATH, "/api/stats")
  {}

  lemma Limits()
    ensures MAX_REQUEST_LINE == 8192 && MAX_HEADER_BYTES == 32768 && MAX_HEADERS == 100
    ensures MAX_BODY_SIZE == 1_048_576 && MAX_MESSAGE_BYTES == 1_081_344
    ensures MAX_REQUESTS_PER_CONNECTION == 100
    ensures RECV_CHUNK == 4096 && INITIAL_CAPACITY == 4096 && SEND_CHUNK == 32768
    ensures STATUS_LINE_BUFFER == 128 && LENGTH_LINE_BUFFER == 64 && StaticPath.PATH_MAX == 4096
    ensures NANOS_PER_SEC == 1_000_000_000 && NANOS_PER_MS == 1_000_000
  {}
}
