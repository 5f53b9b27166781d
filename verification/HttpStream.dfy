/** The TLS connection and the stream read from it: first the bytes that arrived with the
  * headers, then the connection's. */
module HttpStream {
  import opened Basics
  import opened Options

  /** How the next read goes: nothing yet, or up to so many bytes. */
  datatype Turn = Want | Upto(count: nat)

  /** What a read finds after the last byte. */
  datatype Ending = CloseNotify | EndOfData | Failure

  datatype SslResult = WantMore | Got(bytes: string) | Ended(ending: Ending)

  /** The turns left once a read has found a byte or the end. */
  function AfterWants(turns: seq<Turn>): seq<Turn> {
    if |turns| > 0 && turns[0].Want? then AfterWants(turns[1..]) else turns
  }

  /** How many of the bytes the next successful read returns. */
  function Amount(available: nat, turns: seq<Turn>, len: nat): (n: nat)
    requires len > 0
    ensures n <= available && n <= len && (available > 0 ==> n > 0)
  {
    var ready := AfterWants(turns);
    var offered := if |ready| > 0 && ready[0].Upto? && ready[0].count > 0 then ready[0].count else len;
    var most := if offered < len then offered else len;
    if most < available then most else available
  }

  function TurnsAfter(turns: seq<Turn>): seq<Turn> {
    var ready := AfterWants(turns);
    if |ready| > 0 then ready[1..] else ready
  }

  class Connection {
    var data: string
    const ending: Ending
    var turns: seq<Turn>

    constructor (data: string, ending: Ending, turns: seq<Turn>)
      ensures this.data == data && this.ending == ending && this.turns == turns
    {
      this.data := data;
      this.ending := ending;
      this.turns := turns;
    }

    /** One call of the TLS library's read. */
    method SslRead(len: nat) returns (r: SslResult)
      requires len > 0
      modifies this
      ensures r == if |old(turns)| > 0 && old(turns)[0].Want? then WantMore
                   else if |old(data)| == 0 then Ended(ending)
                   else Got(old(data)[..Amount(|old(data)|, old(turns), len)])
      ensures data == if r.Got? then old(data)[|r.bytes|..] else old(data)
      ensures turns == if |old(turns)| > 0 then old(turns)[1..] else []
    {
      var turn := if |turns| > 0 then turns[0] else Upto(len);
      var amount := Amount(|data|, turns, len);
      turns := if |turns| > 0 then turns[1..] else [];
      if turn.Want? { return WantMore; }
      if |data| == 0 { return Ended(ending); }
      r := Got(data[..amount]);
      data := data[amount..];
    }
  }

  class TlsStream {
    const prefix: string
    var prefixPos: nat
    const connection: Connection

    ghost predicate Valid()
      reads this
    {
      prefixPos <= |prefix|
    }

    /** The bytes still to come. */
    ghost function Remaining(): string
      requires Valid()
      reads this, connection
    {
      prefix[prefixPos..] + connection.data
    }

    constructor (prefix: string, connection: Connection)
      ensures Valid() && Remaining() == prefix + connection.data && this.connection == connection
    {
      this.prefix := prefix;
      this.prefixPos := 0;
      this.connection := connection;
    }

    /** At least one byte while there are any; else 0 at an orderly end and -1 at any other. */
    method Read(len: nat) returns (rc: int, bytes: string)
      requires Valid() && len > 0
      modifies this`prefixPos, connection
      ensures Valid() && -1 <= rc <= len
      ensures old(Remaining()) == bytes + Remaining()
      ensures if old(Remaining()) == "" then bytes == "" && rc == (if connection.ending == Failure then -1 else 0)
              else rc == |bytes| > 0
    {
      ghost var before := Remaining();
      if prefixPos < |prefix| {
        var available := |prefix| - prefixPos;
        var count := if len > available then available else len;
        bytes := prefix[prefixPos..prefixPos + count];
        assert prefix[prefixPos..] == bytes + prefix[prefixPos + count..];
        Concat(bytes, prefix[prefixPos + count..], connection.data);
        prefixPos := prefixPos + count;
        return count, bytes;
      }
      while true
        invariant Valid() && prefixPos == |prefix| && Remaining() == before
        decreases |connection.turns|
      {
        assert prefix[prefixPos..] == "";
        var r := connection.SslRead(len);
        match r
        case WantMore =>
        case Got(got) =>
          assert prefix[prefixPos..] + connection.data == connection.data;
          return |got|, got;
        case Ended(ending) =>
          return (if ending == Failure then -1 else 0), "";
      }
    }

    method Exact(len: nat) returns (ok: bool, bytes: string)
      requires Valid()
      modifies this`prefixPos, connection
      ensures Valid() && (ok <==> len <= |old(Remaining())|)
      ensures ok ==> |bytes| == len && old(Remaining()) == bytes + Remaining()
    {
      var left: nat := len;
      bytes := "";
      assert bytes + Remaining() == Remaining();
      while left != 0
        invariant Valid() && left + |bytes| == len && old(Remaining()) == bytes + Remaining()
        decreases left
      {
        var rc, got := Read(left);
        if rc <= 0 { return false, bytes; }
        Concat(bytes, got, Remaining());
        bytes := bytes + got;
        left := left - rc;
      }
      ok := true;
    }

    /** A line up to CR LF, of fewer than `cap` bytes with its end, and without a NUL. */
    method Line(cap: nat) returns (ok: bool, line: string)
      requires Valid()
      modifies this`prefixPos, connection
      ensures Valid()
      ensures match LineOf(old(Remaining()), cap)
        case None => !ok
        case Some((text, rest)) => ok && line == text && Remaining() == rest
    {
      ghost var all := Remaining();
      var read := "";
      assert read + Remaining() == Remaining();
      while |read| + 1 < cap
        invariant Valid() && all == read + Remaining()
        invariant LineOf(all, cap) == Scan(all, |read|, cap)
        decreases cap - |read|
      {
        var got, c := Exact(1);
        if !got { return false, read; }
        assert c == [all[|read|]];
        Concat(read, c, Remaining());
        if c[0] == '\0' { return false, read; }
        read := read + c;
        assert read == all[..|read|];
        if |read| >= 2 && read[|read| - 2] == '\r' && read[|read| - 1] == '\n' {
          assert Remaining() == all[|read|..];
          assert read[..|read| - 2] == all[..|read| - 2];
          return true, read[..|read| - 2];
        }
      }
      ok, line := false, read;
    }
  }

  // ---- lines ----

  /** Reading on after n bytes without a line end among them. */
  function Scan(b: string, n: nat, cap: nat): Option<(string, string)>
    requires n <= |b|
    decreases |b| - n
  {
    if n + 1 >= cap || n == |b| || b[n] == '\0' then None
    else if n >= 1 && b[n - 1] == '\r' && b[n] == '\n' then Some((b[..n - 1], b[n + 1..]))
    else Scan(b, n + 1, cap)
  }

  function LineOf(b: string, cap: nat): Option<(string, string)> { Scan(b, 0, cap) }

  /** A text that one line can carry. */
  predicate LineText(line: string, cap: nat) {
    && |line| + 2 < cap && '\0' !in line
    && forall i :: 0 <= i < |line| - 1 ==> !(line[i] == '\r' && line[i + 1] == '\n')
  }

  lemma {:induction false} ScanFinds(line: string, rest: string, n: nat, cap: nat)
    requires LineText(line, cap) && n <= |line| + 1
    ensures Scan(line + "\r\n" + rest, n, cap) == Some((line, rest))
    decreases |line| + 1 - n
  {
    var b := line + "\r\n" + rest;
    if n <= |line| {
      ScanFinds(line, rest, n + 1, cap);
    } else {
      assert b[..n - 1] == line && b[n + 1..] == rest;
    }
  }

  lemma {:induction false} ScanIsLine(b: string, n: nat, cap: nat)
    requires n <= |b| && Scan(b, n, cap).Some?
    requires '\0' !in b[..n] && forall i :: 0 <= i < n - 1 ==> !(b[i] == '\r' && b[i + 1] == '\n')
    ensures var (line, rest) := Scan(b, n, cap).value;
      LineText(line, cap) && b == line + "\r\n" + rest
    decreases |b| - n
  {
    if n >= 1 && b[n - 1] == '\r' && b[n] == '\n' {
      assert b == b[..n - 1] + [b[n - 1], b[n]] + b[n + 1..];
    } else {
      assert b[..n + 1] == b[..n] + [b[n]];
      ScanIsLine(b, n + 1, cap);
    }
  }

  /** A line is read exactly when the bytes begin with a text that a line can carry. */
  lemma LineExact(b: string, cap: nat, line: string, rest: string)
    ensures LineOf(b, cap) == Some((line, rest)) <==> LineText(line, cap) && b == line + "\r\n" + rest
  {
    if LineOf(b, cap).Some? { ScanIsLine(b, 0, cap); }
    if LineText(line, cap) && b == line + "\r\n" + rest { ScanFinds(line, rest, 0, cap); }
  }
}
