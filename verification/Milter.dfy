/** The milter's trust boundary: a per-connection object that marks inbound results claiming our id, deletes them and
    prepends our own, message after message. */
module Milter {
  import opened Wrappers
  import opened Text
  import opened Netip
  import opened Record
  import opened Walk
  import opened Discover
  import opened Authserv
  import opened AuthResults

  datatype Field = Field(name: string, value: string)

  const AR := "Authentication-Results"

  predicate IsResult(f: Field) { EqualFold(f.name, AR) }

  /** An inbound field that could be read as carrying our id. */
  predicate Forged(id: string, f: Field) { IsResult(f) && Claims(f.value, id) }

  /** What the milter asks of the mail server: delete the index-th field of a name, or insert one in front. */
  datatype Change = Delete(index: nat) | Insert(value: string)

  /** The receiver's settings. */
  datatype Config = Config(authservId: string, codec: PrefixText, ineligible: seq<Prefix>)

  datatype State = State(source: Option<Addr>, stripIdx: seq<nat>, arSeen: nat)

  datatype Event =
    | Connect(addr: Option<Addr>)
    | MailFrom
    | Header(field: Field)
    | Body(net: Network)
    | Abort

  const INITIAL := State(None, [], 0)

  // ---------- What each callback does ----------

  function SetupFor(c: Config, net: Network): Setup {
    Setup(c.codec, net, None, c.ineligible)
  }

  /** Our result for a message, given how the network behaves while it is evaluated. */
  function Stamp(c: Config, source: Option<Addr>, net: Network): string {
    var v := if source.Some? then Stopped(FullRun(SetupFor(c, net), source.value)).verdict else Nobody;
    ResultText(c.codec, c.authservId, v)
  }

  function Deletions(positions: seq<nat>): (ds: seq<Change>)
    ensures |ds| == |positions|
  {
    if positions == [] then [] else [Delete(positions[|positions| - 1])] + Deletions(positions[..|positions| - 1])
  }

  function StepState(c: Config, s: State, ev: Event): State {
    match ev
    case Connect(addr) => if addr.Some? then s.(source := Some(addr.value.Unmap())) else s
    case MailFrom => s.(stripIdx := [], arSeen := 0)
    case Header(f) =>
      if !IsResult(f) then s
      else if Claims(f.value, c.authservId) then s.(stripIdx := s.stripIdx + [s.arSeen + 1], arSeen := s.arSeen + 1)
      else s.(arSeen := s.arSeen + 1)
    case Body(_) => s
    case Abort => s
  }

  function StepChanges(c: Config, s: State, ev: Event): seq<Change> {
    if ev.Body? then Deletions(s.stripIdx) + [Insert(Stamp(c, s.source, ev.net))] else []
  }

  class SwornMilter {
    const config: Config
    var source: Addr
    var haveSource: bool
    var stripIdx: seq<nat>
    var arSeen: nat

    function Now(): State
      reads this
    {
      State(if haveSource then Some(source) else None, stripIdx, arSeen)
    }

    constructor (c: Config)
      ensures config == c && Now() == INITIAL
    {
      config := c;
      source := NoAddr;
      haveSource := false;
      stripIdx := [];
      arSeen := 0;
    }

    method OnConnect(addr: Option<Addr>)
      modifies this
      ensures Now() == StepState(config, old(Now()), Connect(addr))
    {
      if addr.Some? {
        source := addr.value.Unmap();
        haveSource := true;
      }
    }

    method OnMailFrom()
      modifies this
      ensures Now() == StepState(config, old(Now()), MailFrom)
    {
      stripIdx := [];
      arSeen := 0;
    }

    method OnHeader(name: string, value: string)
      modifies this
      ensures Now() == StepState(config, old(Now()), Header(Field(name, value)))
    {
      if EqualFold(name, AR) {
        arSeen := arSeen + 1;
        var claimed := ClaimsId(value, config.authservId);
        if claimed {
          stripIdx := stripIdx + [arSeen];
        }
      }
    }

    /** End of message: deletions from the highest position down, then our result in front. */
    method OnBody(net: Network) returns (changes: seq<Change>)
      ensures changes == StepChanges(config, Now(), Body(net))
    {
      changes := [];
      var i := |stripIdx|;
      assert stripIdx[..i] == stripIdx;
      while i > 0
        invariant 0 <= i <= |stripIdx|
        invariant changes + Deletions(stripIdx[..i]) == Deletions(stripIdx)
      {
        i := i - 1;
        assert stripIdx[..i + 1][..i] == stripIdx[..i];
        Regroup(changes, [Delete(stripIdx[i])], Deletions(stripIdx[..i]));
        changes := changes + [Delete(stripIdx[i])];
      }
      assert changes + [] == changes;
      var text := Evaluate(net);
      changes := changes + [Insert(text)];
    }

    method Evaluate(net: Network) returns (text: string)
      ensures text == Stamp(config, Now().source, net)
    {
      if !haveSource {
        text := FormatResult(config.codec, config.authservId, Nobody);
        return;
      }
      var r := RunDiscovery(SetupFor(config, net), source);
      text := FormatResult(config.codec, config.authservId, r.verdict);
    }
  }
}
