/**
  Registration and authentication over many JT/T 808 connections. A handler
  touches the shared tables before its first await, so one handler is one
  atomic step and a run is any interleaving of such steps.
 */
module Session {

  /** A phone is the hexadecimal text of six or ten header bytes, so it is never empty. */
  type Phone = s: string | s != "" witness "0"
  type Conn = nat

  // ----- authentication codes -------------------------------------------------------

  predicate IsNul(c: char) { c as int == 0 }

  /** The ASCII characters that `str.strip()` removes. */
  predicate IsSpace(c: char) {
    c as int == 0x20 || 0x09 <= c as int <= 0x0D || 0x1C <= c as int <= 0x1F
  }

  function StripLeft(drop: char -> bool, s: string): string {
    if s != "" && drop(s[0]) then StripLeft(drop, s[1..]) else s
  }

  function StripRight(drop: char -> bool, s: string): string {
    if s != "" && drop(s[|s| - 1]) then StripRight(drop, s[..|s| - 1]) else s
  }

  /** `presented.strip("\x00").strip()` */
  function Strip(s: string): string {
    StripRight(IsSpace, StripLeft(IsSpace, StripRight(IsNul, StripLeft(IsNul, s))))
  }

  /** The code for a phone; `suffix` is the random part. */
  function AuthCode(phone: Phone, suffix: string): (code: string)
    ensures code != ""
  {
    "AUTH_" + (if |phone| >= 6 then phone[|phone| - 6..] else phone) + "_" + suffix
  }

  class AuthCodeStore {
    var codes: map<Phone, string>

    constructor ()
      ensures codes == map[]
    {
      codes := map[];
    }

    method Issue(phone: Phone, suffix: string) returns (code: string)
      modifies this
      ensures code == AuthCode(phone, suffix) && codes == old(codes)[phone := code]
    {
      code := AuthCode(phone, suffix);
      codes := codes[phone := code];
    }

    method Validate(phone: Phone, presented: string) returns (ok: bool)
      ensures ok == Valid(codes, phone, presented)
    {
      var stripped := Strip(presented);
      var expected := if phone in codes then codes[phone] else "";
      ok := expected != "" && stripped == expected;
    }

    method Revoke(phone: Phone)
      modifies this
      ensures codes == old(codes) - {phone}
    {
      codes := codes - {phone};
    }
  }

  predicate Valid(codes: map<Phone, string>, phone: Phone, presented: string) {
    phone in codes && codes[phone] != "" && Strip(presented) == codes[phone]
  }

  // ----- the shared tables --------------------------------------------------------------

  datatype Device = Device(authed: bool, online: bool)

  datatype State = State(
    devices: map<Phone, Device>, codes: map<Phone, string>, active: map<Phone, Conn>,
    /** Every connection's own `phone`. */
    phones: map<Conn, Phone>)

  datatype Event =
    | Register(conn: Conn, phone: Phone, suffix: string)
    | Auth(conn: Conn, phone: Phone, presented: string)
    | Heartbeat(conn: Conn, phone: Phone)
    | Location(conn: Conn, phone: Phone)   // one location or a batch of them
    | Logout(conn: Conn, phone: Phone)
    | Disconnect(conn: Conn)

  datatype Result = Success | Failure

  function IsAuthed(s: State, phone: Phone): bool {
    phone in s.devices && s.devices[phone].authed
  }

  function Step(s: State, e: Event): State {
    match e
    case Register(c, p, suffix) =>
      s.(phones := s.phones[c := p], devices := s.devices[p := Device(false, true)],
         codes := s.codes[p := AuthCode(p, suffix)])
    case Auth(c, p, presented) =>
      if Valid(s.codes, p, presented) then
        s.(phones := s.phones[c := p], devices := s.devices[p := Device(true, true)], active := s.active[p := c])
      else s.(phones := s.phones[c := p])
    case Heartbeat(c, p) =>
      s.(phones := s.phones[c := p],
         devices := if IsAuthed(s, p) then s.devices[p := s.devices[p].(online := true)] else s.devices)
    case Location(c, p) => s.(phones := s.phones[c := p])
    case Logout(c, p) =>
      s.(phones := s.phones[c := p], codes := s.codes - {p},
         devices := if p in s.devices then s.devices[p := Device(false, false)] else s.devices)
    case Disconnect(c) =>
      if c !in s.phones then s
      else
        var p := s.phones[c];
        State(s.devices - {p}, s.codes - {p}, s.active - {p}, s.phones - {c})
  }

  function ResultOf(s: State, e: Event): Result {
    match e
    case Auth(_, p, presented) => if Valid(s.codes, p, presented) then Success else Failure
    case Heartbeat(_, p) => if IsAuthed(s, p) then Success else Failure
    case Location(_, p) => if IsAuthed(s, p) then Success else Failure
    case _ => Success
  }

  class Server {
    const authStore: AuthCodeStore
    var devices: map<Phone, Device>
    var active: map<Phone, Conn>
    var phones: map<Conn, Phone>

    constructor ()
      ensures fresh(authStore) && Tables() == State(map[], map[], map[], map[])
    {
      authStore := new AuthCodeStore();
      devices, active, phones := map[], map[], map[];
    }

    function Tables(): State
      reads this, authStore
    {
      State(devices, authStore.codes, active, phones)
    }

    method OnRegister(conn: Conn, phone: Phone, suffix: string) returns (authCode: string)
      modifies this, authStore
      ensures Tables() == Step(old(Tables()), Register(conn, phone, suffix))
      ensures authCode == AuthCode(phone, suffix)
    {
      phones := phones[conn := phone];
      devices := devices[phone := Device(false, true)];
      authCode := authStore.Issue(phone, suffix);
    }

    method OnAuth(conn: Conn, phone: Phone, presented: string) returns (result: Result)
      modifies this
      ensures Tables() == Step(old(Tables()), Auth(conn, phone, presented))
      ensures result == ResultOf(old(Tables()), Auth(conn, phone, presented))
    {
      hide Valid, IsAuthed, AuthCode;
      phones := phones[conn := phone];
      var ok := authStore.Validate(phone, presented);
      if ok {
        result := Success;
        if phone !in devices {
          devices := devices[phone := Device(false, true)];
        }
        devices := devices[phone := devices[phone].(authed := true)];
        devices := devices[phone := devices[phone].(online := true)];
        assert devices == old(devices)[phone := Device(true, true)];
        active := active[phone := conn];
      } else {
        result := Failure;
      }
    }

    method OnLocation(conn: Conn, phone: Phone) returns (result: Result)
      modifies this
      ensures Tables() == Step(old(Tables()), Location(conn, phone))
      ensures result == ResultOf(old(Tables()), Location(conn, phone))
    {
      phones := phones[conn := phone];
      if !(phone in devices && devices[phone].authed) {
        return Failure;
      }
      return Success;
    }

    method OnHeartbeat(conn: Conn, phone: Phone) returns (result: Result)
      modifies this
      ensures Tables() == Step(old(Tables()), Heartbeat(conn, phone))
      ensures result == ResultOf(old(Tables()), Heartbeat(conn, phone))
    {
      phones := phones[conn := phone];
      if !(phone in devices && devices[phone].authed) {
        return Failure;
      }
      devices := devices[phone := devices[phone].(online := true)];
      return Success;
    }

    method OnLogout(conn: Conn, phone: Phone)
      modifies this, authStore
      ensures Tables() == Step(old(Tables()), Logout(conn, phone))
    {
      phones := phones[conn := phone];
      if phone in devices {
        devices := devices[phone := devices[phone].(authed := false)];
        devices := devices[phone := devices[phone].(online := false)];
        assert devices == old(devices)[phone := Device(false, false)];
      }
      authStore.Revoke(phone);
    }

    method OnDisconnect(conn: Conn)
      modifies this, authStore
      ensures Tables() == Step(old(Tables()), Disconnect(conn))
    {
      if conn in phones {
        var phone := phones[conn];
        devices := devices - {phone};
        authStore.Revoke(phone);
        active := active - {phone};
        phones := phones - {conn};
      }
    }
  }
}
