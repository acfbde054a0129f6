/** Reconfiguring a UART from the five wire octets of a SYNC body: the decoding of the octets
    and the attempt loop. */
module UartConfig {
  import opened Bytes
  import opened Options
  import opened GwError
  import Calendar
  import RxRing

  datatype Parity = NoParity | Odd | Even
  datatype Line = Line(baud: nat, dataBits: nat, stopBits: nat, parity: Parity, rtsCts: bool)

  // The switches of rs232_reconfigure, one field after the other.
  function DecodeLine(cfg: seq<byte>): Option<Line>
    requires |cfg| == CFG_LEN
  {
    if cfg[0] > 1 || cfg[1] > 1 || cfg[2] > 1 || cfg[3] > 2 || cfg[4] > 1 then None
    else Some(Line(if cfg[0] == 0 then 9600 else 115200,
                   if cfg[1] == 0 then 7 else 8,
                   if cfg[2] == 0 then 1 else 2,
                   if cfg[3] == 0 then NoParity else if cfg[3] == 1 then Odd else Even,
                   cfg[4] == 1))
  }

  /** What the SYNC check accepts is exactly what the UART layer can decode, and different
      accepted octets are different line settings. */
  lemma CheckMatchesDecoder(cfg: seq<byte>, cfg': seq<byte>)
    requires |cfg| == CFG_LEN && |cfg'| == CFG_LEN
    ensures WireCfgCheck(cfg) == NONE <==> DecodeLine(cfg).Some?
    ensures DecodeLine(cfg).Some? && DecodeLine(cfg) == DecodeLine(cfg') ==> cfg == cfg'
  {}

  // The wire octets the protocol assigns to a setting.
  function EncodeLine(l: Line): seq<byte> {
    [if l.baud == 115200 then 0x01 else 0x00,
     if l.dataBits == 8 then 0x01 else 0x00,
     if l.stopBits == 2 then 0x01 else 0x00,
     match l.parity case NoParity => 0x00 case Odd => 0x01 case Even => 0x02,
     if l.rtsCts then 0x01 else 0x00]
  }

  predicate Supported(l: Line) {
    l.baud in {9600, 115200} && l.dataBits in {7, 8} && l.stopBits in {1, 2}
  }

  /** Every supported setting can be asked for, and the octets that ask for it are decoded to it. */
  lemma LineRoundTrip(l: Line, cfg: seq<byte>)
    requires |cfg| == CFG_LEN
    ensures Supported(l) ==> DecodeLine(EncodeLine(l)) == Some(l)
    ensures DecodeLine(cfg).Some? ==> Supported(DecodeLine(cfg).value) && EncodeLine(DecodeLine(cfg).value) == cfg
  {}

  /** What each octet asks for. */
  lemma LineTable(cfg: seq<byte>, l: Line)
    requires |cfg| == 5
    ensures DecodeLine(cfg) == Some(l) <==>
            && (cfg[0], l.baud) in {(0, 9600), (1, 115200)}
            && (cfg[1], l.dataBits) in {(0, 7), (1, 8)}
            && (cfg[2], l.stopBits) in {(0, 1), (1, 2)}
            && (cfg[3], l.parity) in {(0, NoParity), (1, Odd), (2, Even)}
            && (cfg[4], l.rtsCts) in {(0, false), (1, true)}
  {}

  // A SYNC body the protocol allows.
  ghost predicate LegalBody(body: seq<byte>) {
    && |body| == 14
    && 2000 <= Be16(body[0], body[1]) <= 2099 && 1 <= body[2] <= 12 && 1 <= body[3] <= 31
    && body[4] <= 23 && body[5] <= 59 && body[6] <= 59 && Be16(body[7], body[8]) <= 999
    && exists l :: Supported(l) && EncodeLine(l) == body[9..]
  }

  /** The check passes exactly these bodies: calendar fields within their bounds, the day within
      31, and five octets that some supported line setting is asked for by. */
  lemma SyncBodyCheckIff(body: seq<byte>)
    ensures SyncBodyCheck(body) == 0 <==> LegalBody(body)
    ensures LegalBody(body) <==>
            && |body| == 14
            && (exists y: nat :: 2000 <= y < 2100 && body[0] == y / 256 && body[1] == y % 256)
            && 0 < body[2] < 13 && 0 < body[3] < 32 && body[4] < 24 && body[5] < 60 && body[6] < 60
            && (exists ms: nat :: ms < 1000 && body[7] == ms / 256 && body[8] == ms % 256)
            && body[9] < 2 && body[10] < 2 && body[11] < 2 && body[12] < 3 && body[13] < 2
    ensures SyncBodyCheck(body) != 0 ==> SyncBodyCheck(body) == 1
  {
    hide Calendar.Timegm;
    if |body| == 14 {
      var cfg := body[9..];
      LegalCfg(cfg);
      assert cfg[0] == body[9] && cfg[1] == body[10] && cfg[2] == body[11] && cfg[3] == body[12] && cfg[4] == body[13];
      var (y, ms) := (Be16(body[0], body[1]), Be16(body[7], body[8]));
      assert body[0] == y / 256 && body[1] == y % 256 && body[7] == ms / 256 && body[8] == ms % 256;
      if 2000 <= y <= 2099 && 1 <= body[2] <= 12 && 1 <= body[3] <= 31 {
        TimegmNotNegative(TimeOf(body));
      }
    }
  }

  lemma LegalCfg(cfg: seq<byte>)
    requires |cfg| == CFG_LEN
    ensures (exists l :: Supported(l) && EncodeLine(l) == cfg)
            <==> cfg[0] < 2 && cfg[1] < 2 && cfg[2] < 2 && cfg[3] < 3 && cfg[4] < 2
    ensures WireCfgCheck(cfg) == NONE <==> cfg[0] < 2 && cfg[1] < 2 && cfg[2] < 2 && cfg[3] < 3 && cfg[4] < 2
  {
    if DecodeLine(cfg).Some? {
      LineRoundTrip(DecodeLine(cfg).value, cfg);
      assert Supported(DecodeLine(cfg).value) && EncodeLine(DecodeLine(cfg).value) == cfg;
    }
  }

  lemma TimegmNotNegative(t: Calendar.DateTime)
    requires 2000 <= t.year <= 2099 && 1 <= t.month <= 12 && 1 <= t.day
    ensures Calendar.Timegm(t) >= 0
  {
    assert Calendar.DaysBeforeYear(1970) == 0;
    Calendar.LaterYears(1970, t.year);
  }

  // The k-th attempt: whether an abort is pending when it starts, and what the driver answers.
  datatype Attempt = Attempt(aborted: bool, configured: bool)

  const ATTEMPTS: nat := 3

  // Result of the attempts first .. 3 and how many driver calls they made.
  function Try(env: nat -> Attempt, first: nat): (r: (bool, nat))
    requires 1 <= first <= ATTEMPTS + 1
    decreases ATTEMPTS + 1 - first
  {
    if first > ATTEMPTS || env(first).aborted then (false, 0)
    else if env(first).configured then (true, 1)
    else var (ok, calls) := Try(env, first + 1); (ok, calls + 1)
  }

  function Reconfigure(env: nat -> Attempt, cfg: seq<byte>): (bool, nat)
    requires |cfg| == CFG_LEN
  {
    if DecodeLine(cfg).None? then (false, 0) else Try(env, 1)
  }

  class Port {
    var line: Option<Line> // None until first configured from the wire
    var protocol: byte
    var errors: nat // the flags uart_err_check would report and clear
    const ring: RxRing.Ring

    ghost predicate Valid()
      reads this, ring
    {
      ring.Valid()
    }

    constructor ()
      ensures Valid() && fresh(ring) && ring.Contents() == []
      ensures line == None && protocol == 0x01 && errors == 0
    {
      line, protocol, errors := None, 0x01, 0;
      ring := new RxRing.Ring();
    }

    /** rs232_reconfigure: on success the port has the decoded line, and nothing received on the
        old one is left; otherwise nothing changes. */
    method Apply(env: nat -> Attempt, cfg: seq<byte>, proto: byte) returns (ok: bool)
      requires Valid() && |cfg| == CFG_LEN
      modifies this, ring
      ensures Valid() && ok == Reconfigure(env, cfg).0
      ensures ok ==> DecodeLine(cfg).Some? && line == DecodeLine(cfg) && protocol == proto
      ensures ok ==> ring.Contents() == [] && errors == 0
      ensures !ok ==> line == old(line) && protocol == old(protocol) && errors == old(errors)
      ensures !ok ==> ring.Contents() == old(ring.Contents())
    {
      var decoded := DecodeLine(cfg);
      if decoded.None? {
        return false;
      }
      var attempt := 1;
      while attempt <= ATTEMPTS
        invariant 1 <= attempt <= ATTEMPTS + 1
        invariant Try(env, attempt).0 == Try(env, 1).0
        invariant unchanged(this) && unchanged(ring)
      {
        if env(attempt).aborted {
          return false;
        }
        if env(attempt).configured {
          ring.Reset();
          line, protocol, errors := decoded, proto, 0;
          return true;
        }
        attempt := attempt + 1;
      }
      return false;
    }
  }

  /** The loop succeeds exactly when the octets decode and one of the three attempts is granted
      with no abort seen up to it. */
  lemma ReconfigureIff(env: nat -> Attempt, cfg: seq<byte>)
    requires |cfg| == CFG_LEN
    ensures Reconfigure(env, cfg).0 <==>
            DecodeLine(cfg).Some?
            && exists k :: 1 <= k <= 3 && env(k).configured && forall j :: 1 <= j <= k ==> !env(j).aborted
    ensures Reconfigure(env, cfg).1 <= 3
  {
    assert Try(env, 4) == (false, 0);
    assert Try(env, 3).0 <==> !env(3).aborted && env(3).configured;
    assert Try(env, 2).0 <==> !env(2).aborted && (env(2).configured || Try(env, 3).0);
    assert Try(env, 1).0 <==> !env(1).aborted && (env(1).configured || Try(env, 2).0);
    if Try(env, 1).0 {
      var k := if env(1).configured then 1 else if env(2).configured then 2 else 3;
      assert env(k).configured;
    }
  }
}
