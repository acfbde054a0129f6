/** The error codes shared by the UDP and TCP sides, the latch that holds the current one, and
    the checks a SYNC body must pass. */
module GwError {
  import opened Bytes
  import Calendar

  const NONE: byte := 0x00
  const INIT_CFG: byte := 0x01
  const RS232_NO_RESPONSE: byte := 0x02
  const TCP_COMM: byte := 0x04
  const UDP_COMM: byte := 0x05

  const TIME_LEN: nat := 9
  const CFG_LEN: nat := 5
  const SYNC_LEN: nat := TIME_LEN + CFG_LEN
  const RETRIES: nat := 5

  // gw_error_set ignores codes it does not know.
  function Latched(current: byte, code: byte): byte {
    if code > UDP_COMM then current else code
  }

  class ErrorLatch {
    var code: byte

    constructor ()
      ensures code == NONE
    {
      code := NONE;
    }

    method Set(c: byte)
      modifies this
      ensures code == Latched(old(code), c) == if c <= 5 then c else old(code)
    {
      if c > UDP_COMM {
        return;
      }
      code := c;
    }

    method Clear()
      modifies this
      ensures code == NONE
    {
      code := NONE;
    }
  }

  // gw_rs232_wire_cfg_check: baud rate, data bits, stop bits, parity, flow control.
  function WireCfgCheck(cfg: seq<byte>): byte
    requires |cfg| == CFG_LEN
  {
    if cfg[0] > 1 then INIT_CFG
    else if cfg[1] > 1 then INIT_CFG
    else if cfg[2] > 1 then INIT_CFG
    else if cfg[3] > 2 then INIT_CFG
    else if cfg[4] > 1 then INIT_CFG
    else NONE
  }

  // The calendar fields at the front of a body.
  function TimeOf(body: seq<byte>): Calendar.DateTime
    requires |body| >= TIME_LEN
  {
    Calendar.DateTime(Be16(body[0], body[1]), body[2], body[3], body[4], body[5], body[6])
  }

  function MsecOf(body: seq<byte>): nat
    requires |body| >= TIME_LEN
  {
    Be16(body[7], body[8])
  }

  // gw_sync_body_check. The day is only compared with 31.
  function SyncBodyCheck(body: seq<byte>): byte {
    if |body| != SYNC_LEN then INIT_CFG
    else if WireCfgCheck(body[TIME_LEN..]) != NONE then INIT_CFG
    else
      var t := TimeOf(body);
      if t.year < 2000 || t.year > 2099 then INIT_CFG
      else if t.month < 1 || t.month > 12 then INIT_CFG
      else if t.day < 1 || t.day > 31 then INIT_CFG
      else if t.hour > 23 || t.min > 59 || t.sec > 59 then INIT_CFG
      else if MsecOf(body) > 999 then INIT_CFG
      else if Calendar.Timegm(t) == -1 then INIT_CFG
      else NONE
  }

  /** A body that passes is a time between 2000 and 2100 whose timegm is a positive number of
      seconds that fits in 32 bits: the check against -1 never fires. Its date is real unless the
      day is past the end of a shorter month. */
  lemma CheckedBody(body: seq<byte>)
    requires SyncBodyCheck(body) == NONE
    ensures |body| == SYNC_LEN && 1 <= body[2] <= 12 && MsecOf(body) <= 999
    ensures TimeOf(body).year >= 2000
    ensures 946684800 <= Calendar.Timegm(TimeOf(body)) < 4102444800 + 86400
    ensures Calendar.Timegm(TimeOf(body)) < 0x1_0000_0000
    ensures Calendar.Valid(TimeOf(body)) <==> body[3] <= Calendar.MonthDays(TimeOf(body).year, body[2])
  {
    var y := TimeOf(body).year;
    assert Calendar.DaysBeforeYear(2000) == 10957 && Calendar.DaysBeforeYear(2099) == 47117;
    if y > 2000 { Calendar.LaterYears(2000, y); }
    if y < 2099 { Calendar.LaterYears(y, 2099); }
  }
}
