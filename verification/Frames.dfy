/** Ethernet header parsing (switch/frame.rs). */
module Frames {
  import opened Base

  const ETHERTYPE_ARP: u16 := 0x0806
  const ETHERTYPE_IPV4: u16 := 0x0800
  const TPID_8021Q: u16 := 0x8100

  datatype Parsed = Parsed(dst: Mac, src: Mac, ethertype: u16, payload: Bytes)

  /** The ethertype field of an untagged header; None for runts. */
  function Ethertype(frame: Bytes): Option<u16>
  {
    if |frame| < 14 then None else Some(Be16(frame[12], frame[13]))
  }

  /** A tagged frame exposes its inner ethertype; None when too short for its header. */
  function Parse(frame: Bytes): (r: Option<Parsed>)
    ensures r.Some? ==> |frame| >= 14 && frame[..6] == r.value.dst.Octets() && frame[6..12] == r.value.src.Octets()
  {
    if |frame| < 14 then None
    else
      var outer := Be16(frame[12], frame[13]);
      if outer == TPID_8021Q then
        if |frame| < 18 then None
        else Some(Parsed(MacAt(frame, 0), MacAt(frame, 6), Be16(frame[16], frame[17]), frame[18..]))
      else
        Some(Parsed(MacAt(frame, 0), MacAt(frame, 6), outer, frame[14..]))
  }

  /** A tag of 802.1Q where an ethertype would stand. */
  predicate IsTagged(frame: Bytes)
  {
    |frame| >= 14 && frame[12] == 0x81 && frame[13] == 0
  }

  /**
    A frame parses iff its header is whole: 14 bytes, or 18 with a tag. The ethertype is the last
    two bytes of that header, the payload what follows, the MACs always the first twelve.
   */
  lemma ParseMeans(frame: Bytes)
    ensures var header := if IsTagged(frame) then 18 else 14;
      && (Parse(frame).Some? <==> |frame| >= header)
      && (|frame| >= header ==>
            var p := Parse(frame).value;
            && p.dst.Octets() == frame[..6] && p.src.Octets() == frame[6..12]
            && p.ethertype == Be16(frame[header - 2], frame[header - 1]) && p.payload == frame[header..])
  {}

  /** The I-bit of the first destination octet is clear. */
  predicate IsLocalUnicast(frame: Bytes)
    requires |frame| > 0
  {
    frame[0] % 2 == 0
  }
}
