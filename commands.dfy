// What the API sends and how it reads a reply: request dictionaries, request URLs, the
// success rule applied to every reply, and the callbacks a request session delivers.

module Commands {
  import opened Base

  /** A value stored in a request dictionary. */
  datatype RequestValue = RString(s: string) | RInt(i: int) | RDouble(d: Double) | RList(items: seq<string>)

  /** A request dictionary, key to value. */
  type Request = map<string, RequestValue>

  /** `getCommand`: a request that only names its command. */
  function GetCommand(command: string): (r: Request)
    ensures r.Keys == {"command"} && r["command"] == RString(command)
  {
    map["command" := RString(command)]
  }

  // ---------------------------------------------------------------------------------------
  // The success rule and the request session

  /** The part every decoded reply shares: a result string and an optional error message. */
  datatype Envelope<T> = Envelope(result: string, message: Option<string>, payload: T)

  /** A reply counts as a success when it did not decode at all or carries no message. */
  predicate Success<T>(decoded: Option<Envelope<T>>) {
    decoded.None? || decoded.value.message.None?
  }

  lemma SuccessRule<T>(decoded: Option<Envelope<T>>)
    ensures Success(decoded) <==> !(decoded.Some? && decoded.value.message.Some?)
    ensures decoded.None? ==> Success(decoded)
  {
  }

  /** One call of the completion handler: the success flag and the decoded reply. */
  datatype Callback<T> = Callback(success: bool, result: Option<Envelope<T>>)

  /** The completion handlers `executeSession` runs for one reply, in order. The transport
      error branch has no `return`, so the response check after it runs as well. */
  function SessionCallbacksAsWritten<T>(failed: bool, hasHttpResponse: bool, decoded: Option<Envelope<T>>)
    : seq<Callback<T>>
  {
    (if failed then [Callback(false, None)] else [])
    + (if !hasHttpResponse then [Callback(false, None)] else [Callback(Success(decoded), decoded)])
  }

  /** The handlers of a session that stops after reporting a transport error. */
  function SessionCallbacks<T>(failed: bool, hasHttpResponse: bool, decoded: Option<Envelope<T>>)
    : (r: seq<Callback<T>>)
    ensures |r| == 1
    ensures r[0].success <==> !failed && hasHttpResponse && Success(decoded)
    ensures !failed && hasHttpResponse ==> r[0].result == decoded
    ensures failed || !hasHttpResponse ==> r[0] == Callback(false, None)
  {
    if failed || !hasHttpResponse then [Callback(false, None)]
    else [Callback(Success(decoded), decoded)]
  }

  /** A transport error without a response calls the handler twice with a failure, and a
      transport error with a response reports a failure and then the outcome of the reply. */
  lemma SessionAsWrittenCallsTwice<T>(decoded: Option<Envelope<T>>)
    ensures SessionCallbacksAsWritten(true, false, decoded) == [Callback(false, None), Callback(false, None)]
    ensures |SessionCallbacksAsWritten(true, true, decoded)| == 2
    ensures SessionCallbacksAsWritten<T>(true, true, None) == [Callback(false, None), Callback(true, None)]
  {
  }

  /** Without a transport error both sessions agree; with one, the corrected session keeps
      only the first handler call of the one as written. */
  lemma SessionCorrectionAgrees<T>(failed: bool, hasHttpResponse: bool, decoded: Option<Envelope<T>>)
    ensures !failed ==> SessionCallbacks(failed, hasHttpResponse, decoded)
                        == SessionCallbacksAsWritten(failed, hasHttpResponse, decoded)
    ensures SessionCallbacks(failed, hasHttpResponse, decoded)[0]
            == SessionCallbacksAsWritten(failed, hasHttpResponse, decoded)[0]
  {
  }

  /** A body that does not decode is delivered as a success without a result. */
  lemma UndecodableBodyIsSuccess<T>()
    ensures SessionCallbacks<T>(false, true, None) == [Callback(true, None)]
  {
  }

  // ---------------------------------------------------------------------------------------
  // Request URLs

  datatype RequestType = Link | Bundle | Device

  function RequestTypeRaw(t: RequestType): string {
    match t
    case Link => "link"
    case Bundle => "bundle"
    case Device => "device"
  }

  function Digit(d: nat): (c: char)
    requires d < 10
    ensures '0' <= c <= '9' && (c - '0') as nat == d
  {
    (48 + d) as char
  }

  /** The decimal digits of a natural number, most significant first. */
  function DecimalDigits(n: nat): (r: string)
    ensures |r| >= 1
    ensures forall i :: 0 <= i < |r| ==> '0' <= r[i] <= '9'
  {
    if n < 10 then [Digit(n)] else DecimalDigits(n / 10) + [Digit(n % 10)]
  }

  /** `String(_:)` of a Swift `Int`: decimal, with a minus sign when negative. */
  function IntToString(i: int): string {
    if i < 0 then "-" + DecimalDigits(-i) else DecimalDigits(i)
  }

  /** Reads a string of decimal digits back as a number. */
  function ParseDecimal(s: string): nat
    requires forall i :: 0 <= i < |s| ==> '0' <= s[i] <= '9'
  {
    if |s| == 0 then 0 else 10 * ParseDecimal(s[..|s| - 1]) + (s[|s| - 1] - '0') as nat
  }

  /** The decimal text of a number reads back as that number. */
  lemma {:induction false} DecimalRoundTrip(n: nat)
    ensures ParseDecimal(DecimalDigits(n)) == n
  {
    if n >= 10 {
      var s := DecimalDigits(n);
      DecimalRoundTrip(n / 10);
      assert s == DecimalDigits(n / 10) + [Digit(n % 10)];
      assert s[..|s| - 1] == DecimalDigits(n / 10);
      assert (s[|s| - 1] - '0') as nat == n % 10;
    }
  }

  /** The text of a number starts with a minus sign exactly when the number is negative. */
  lemma IntToStringSign(i: int)
    ensures IntToString(i)[0] == '-' <==> i < 0
  {
    if i >= 0 {
      assert IntToString(i)[0] == DecimalDigits(i)[0];
    }
  }

  /** Distinct numbers have distinct decimal texts. */
  lemma IntToStringInjective(a: int, b: int)
    requires IntToString(a) == IntToString(b)
    ensures a == b
  {
    IntToStringSign(a);
    IntToStringSign(b);
    if a < 0 {
      var s := IntToString(a);
      assert s == "-" + DecimalDigits(-a);
      assert s == "-" + DecimalDigits(-b);
      assert DecimalDigits(-a) == s[1..] == DecimalDigits(-b);
      DecimalDigitsInjective(-a, -b);
    } else {
      DecimalDigitsInjective(a, b);
    }
  }

  /** Distinct natural numbers have distinct digit strings. */
  lemma DecimalDigitsInjective(x: nat, y: nat)
    requires DecimalDigits(x) == DecimalDigits(y)
    ensures x == y
  {
    DecimalRoundTrip(x);
    DecimalRoundTrip(y);
  }

  /** `getURL(adapterID:type:)` before `URL(string:)`: the base on the host and port, then
      the request type, then the adapter id unless the type is `device`. */
  function GetURL(hostname: string, port: int, adapterID: string, t: RequestType): string {
    "http://" + hostname + ":" + IntToString(port) + "/v1/" + RequestTypeRaw(t)
    + (if t != Device then "/" + adapterID else "")
  }

  /** Device URLs ignore the adapter id; link and bundle URLs tell adapters apart. */
  lemma GetURLAdapterRule(hostname: string, port: int, a: string, b: string, t: RequestType)
    ensures GetURL(hostname, port, a, Device) == GetURL(hostname, port, b, Device)
    ensures t != Device && a != b ==> GetURL(hostname, port, a, t) != GetURL(hostname, port, b, t)
  {
    if t != Device && GetURL(hostname, port, a, t) == GetURL(hostname, port, b, t) {
      var prefix := "http://" + hostname + ":" + IntToString(port) + "/v1/" + RequestTypeRaw(t) + "/";
      assert GetURL(hostname, port, a, t) == prefix + a;
      assert GetURL(hostname, port, b, t) == prefix + b;
      assert a == (prefix + a)[|prefix|..];
    }
  }

  /** On one host, URLs of the same type and adapter for different ports differ. */
  lemma GetURLPortRule(hostname: string, p: int, q: int, adapterID: string, t: RequestType)
    requires p != q
    ensures GetURL(hostname, p, adapterID, t) != GetURL(hostname, q, adapterID, t)
  {
    var head := "http://" + hostname + ":";
    var tail := "/v1/" + RequestTypeRaw(t) + (if t != Device then "/" + adapterID else "");
    var x, y := IntToString(p), IntToString(q);
    assert GetURL(hostname, p, adapterID, t) == head + x + tail;
    assert GetURL(hostname, q, adapterID, t) == head + y + tail;
    if head + x + tail == head + y + tail {
      assert x == (head + x + tail)[|head|..|head| + |x|];
      if |x| == |y| {
        assert y == (head + y + tail)[|head|..|head| + |y|];
        IntToStringInjective(p, q);
      }
    }
  }

  // ---------------------------------------------------------------------------------------
  // Request dictionaries

  /** The joystick request for the given moving axes: the command, then each axis's raw
      name bound to its move value. */
  function JoystickRequest(moves: seq<(AxelID, Double)>): Request {
    if |moves| == 0 then GetCommand("joystickMove")
    else JoystickRequest(moves[..|moves| - 1])[AxelRaw(moves[|moves| - 1].0) := RDouble(moves[|moves| - 1].1)]
  }

  /** No raw axis name is the `command` key. */
  lemma AxelRawIsNotCommand(a: AxelID)
    ensures AxelRaw(a) != "command"
  {
    assert AxelRaw(a)[0] != 'c';
  }

  /** The joystick request names its command and holds exactly the raw names of the moving axes. */
  lemma {:induction false} JoystickRequestKeys(moves: seq<(AxelID, Double)>)
    ensures var r := JoystickRequest(moves);
      "command" in r && r["command"] == RString("joystickMove")
      && forall a :: AxelRaw(a) in r <==> exists i :: 0 <= i < |moves| && moves[i].0 == a
  {
    if |moves| > 0 {
      var init := moves[..|moves| - 1];
      JoystickRequestKeys(init);
      AxelRawIsNotCommand(moves[|moves| - 1].0);
      forall a ensures AxelRaw(a) in JoystickRequest(moves) <==> exists i :: 0 <= i < |moves| && moves[i].0 == a {
        AxelRawRoundTrip(a);
        AxelRawRoundTrip(moves[|moves| - 1].0);
        if exists i :: 0 <= i < |init| && init[i].0 == a {
          var i :| 0 <= i < |init| && init[i].0 == a;
          assert moves[i].0 == a;
        }
        if exists i :: 0 <= i < |moves| && moves[i].0 == a {
          var i :| 0 <= i < |moves| && moves[i].0 == a;
          if i < |init| {
            assert init[i].0 == a;
          }
        }
      }
    }
  }

  /** With distinct axes, each raw name carries the move value of its axis. */
  lemma {:induction false} JoystickRequestValues(moves: seq<(AxelID, Double)>)
    requires forall i, j :: 0 <= i < j < |moves| ==> moves[i].0 != moves[j].0
    ensures forall i :: 0 <= i < |moves| ==>
              AxelRaw(moves[i].0) in JoystickRequest(moves)
              && JoystickRequest(moves)[AxelRaw(moves[i].0)] == RDouble(moves[i].1)
  {
    if |moves| > 0 {
      var init := moves[..|moves| - 1];
      var last := moves[|moves| - 1];
      JoystickRequestValues(init);
      forall i | 0 <= i < |moves|
        ensures AxelRaw(moves[i].0) in JoystickRequest(moves)
                && JoystickRequest(moves)[AxelRaw(moves[i].0)] == RDouble(moves[i].1)
      {
        if i < |init| {
          assert init[i] == moves[i];
          AxelRawRoundTrip(moves[i].0);
          AxelRawRoundTrip(last.0);
          assert AxelRaw(moves[i].0) != AxelRaw(last.0);
        }
      }
    }
  }

  /** The create-bundle request: the command, the device count, the MAC list and the forced
      master (a nil master leaves the key out). */
  function CreateBundleRequest(macs: seq<string>, master: Option<string>): (r: Request)
    ensures "command" in r && r["command"] == RString("wirelessPairingCreateBundle")
    ensures "deviceCount" in r && r["deviceCount"] == RInt(|macs|)
    ensures "macList" in r && r["macList"] == RList(macs)
    ensures "forceMasterDevice" in r <==> master.Some?
    ensures master.Some? ==> r["forceMasterDevice"] == RString(master.value)
    ensures r.Keys <= {"command", "deviceCount", "forceMasterDevice", "macList"}
  {
    var base := GetCommand("wirelessPairingCreateBundle")["deviceCount" := RInt(|macs|)];
    (if master.Some? then base["forceMasterDevice" := RString(master.value)] else base)["macList" := RList(macs)]
  }
}
