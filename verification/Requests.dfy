/** The decisions taken for one upload request, as functions on the stored
    metadata: resolving a piece, checking it before the body is read, and
    settling it in the lock section after the body was written. */
module Requests {
  import opened Wrappers
  import opened Ranges
  import opened Pieces
  import opened Session
  import opened Lifecycle

  datatype Refusal =
    | BadIndex | BadPieceLen | HashRequired | BadHash | Conflict
    | BadPosition | TooBig | OverSize | SessionGone | ShortBody
    | Incomplete | FullHashRequired | HashMismatch | WriteFailed | VerifyFailed

  datatype Result<+T> = Ok(value: T) | Err(why: Refusal)

  /** A resolved piece request: its start, normalised claim, and whether the
      client claimed a hash at all. */
  datatype Resolved = Resolved(start: int, claim: string, hasClaim: bool)

  function Resolve(m: Meta, index: int, length: int, claim: string): Result<Resolved> {
    if index < 0 || index >= Count(m) then Err(BadIndex)
    else if length != Hi(m, index) - Lo(m, index) then Err(BadPieceLen)
    else if m.noVerify && claim == "" then Ok(Resolved(Lo(m, index), "", false))
    else if HashAt(m, index).None? && !HexDigest(claim) then
      Err(if |claim| != 64 then HashRequired else BadHash)
    else Ok(Resolved(Lo(m, index), Lower(claim), claim != ""))
  }

  /** The hash list, grown with unknowns until it reaches piece ci. */
  function Grown(hashes: seq<Option<string>>, ci: int): seq<Option<string>> {
    if |hashes| <= ci then hashes + seq(ci + 1 - |hashes|, _ => None) else hashes
  }

  function MergeClaim(m: Meta, ci: int, claim: string): Result<Meta> {
    if ci < 0 || ci >= Count(m) then Err(BadIndex)
    else if HashAt(m, ci).Some? && HashAt(m, ci).value != claim then Err(Conflict)
    else Ok(m.(hashes := Grown(m.hashes, ci)[ci := Some(claim)]))
  }

  /** Where a span goes and what was claimed for it.  `index` is None on the
      plain offset route, which never carries a claim. */
  datatype Target = Target(index: Option<int>, offset: int, length: int, claim: string, hasClaim: bool)

  function Malformed(t: Target): Option<Refusal> {
    if t.offset < 0 || t.length <= 0 then Some(BadPosition)
    else if t.length > CHUNK_MAX then Some(TooBig)
    else if t.hasClaim && (t.index.None? || !HexDigest(t.claim)) then Some(BadHash)
    else None
  }

  function WithClaim(m: Meta, t: Target): Result<Meta> {
    if t.hasClaim && t.index.Some? then MergeClaim(m, t.index.value, t.claim) else Ok(m)
  }

  /** First lock section of writeV2: nothing is saved. */
  function PreCheck(saved: Option<Meta>, t: Target): Option<Refusal> {
    if saved.None? || saved.value.v != 2 then Some(SessionGone)
    else if t.offset + t.length > saved.value.size then Some(OverSize)
    else
      match WithClaim(saved.value, t)
      case Err(why) => Some(why)
      case Ok(_) => None
  }

  datatype Outcome = Refused(why: Refusal) | Settled(bad: seq<int>) | Placed

  /** Second lock section, on the reloaded metadata: merge the claim, account,
      save once. */
  function Settle(H: Digest, saved: Option<Meta>, disk: seq<byte>, t: Target): (Option<Meta>, Outcome)
    requires saved.Some? && saved.value.v == 2 ==> saved.value.pieceLen > 0
  {
    if saved.None? || saved.value.v != 2 then (saved, Refused(SessionGone))
    else
      match WithClaim(saved.value, t)
      case Err(why) => (saved, Refused(why))
      case Ok(m) =>
        var r := Account(H, m, disk, t.offset, t.length);
        (Some(r.0), Settled(r.1))
  }

  /** The same on what is stored: metadata that cannot be read again refuses
      the request and stays as it is. */
  function SettleSaved(H: Digest, saved: Option<Meta>, disk: seq<byte>, t: Target): (Option<Meta>, Outcome) {
    if Load(saved).None? then (saved, Refused(SessionGone)) else Settle(H, saved, disk, t)
  }

  /** Bytes of `body` laid over the file from `at` on; the file grows when
      they reach past its end. */
  function Overlay(disk: seq<byte>, at: nat, body: seq<byte>): seq<byte> {
    var d := if |disk| < at + |body| then disk + seq(at + |body| - |disk|, _ => 0) else disk;
    d[..at] + body + d[at + |body|..]
  }
}
