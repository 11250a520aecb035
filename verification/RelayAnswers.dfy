/** Who gets which answer to a download of a guest's file, and what a relay
    leaves on disk, in terms of the request and the retained prefix. */
module RelayAnswers {
  import opened Wrappers
  import opened RelayServe
  import RangeHeader

  /** The owner is asked for exactly the bytes of the range that are not on
      disk, provided the range reaches beyond the disk. */
  lemma AskedIff(retained: Option<Bytes>, start: int, end: int, k: int)
    requires 0 <= start
    ensures JobOffset(retained, start) <= k <= end <==> start <= k <= end && !(k < Received(retained))
  {}

  /** A range that asks for something on disk only, or that the owner picks up,
      never fails; the others fail in one of three ways. */
  ghost predicate Refuses(v: Visit, retained: Option<Bytes>, size: nat, p: RangeHeader.Range, r: Reply) {
    var held, given, done := Received(retained), RangeGiven(v), Complete(v, retained, size);
    && (r == Refused(416) <==>
          given && if done then !p.partial && !v.ifRange
                   else if v.ownerAlive then !p.partial
                   else held > 0 && !(p.partial && p.end < held))
    && (r == Refused(504) <==> !done && v.ownerAlive && !v.claimed && (given ==> p.partial) && p.end >= held)
    && (r == Refused(404) <==> !done && if v.ownerAlive then !given && size == 0 && retained.None? else held == 0)
    && (r.Refused? ==> r.status == 416 || r.status == 504 || r.status == 404)
  }

  ghost predicate AnswersWhole(v: Visit, retained: Option<Bytes>, size: nat, p: RangeHeader.Range, r: Reply) {
    var held, given, done := Received(retained), RangeGiven(v), Complete(v, retained, size);
    && (r.Body? && r.status == 200 <==>
          if done then (given ==> v.ifRange) && !(p.partial && (!v.ifRange || v.ifRangeHolds))
          else !given && if v.ownerAlive then (p.end >= held ==> v.claimed) && (size == 0 ==> retained.Some?)
                         else held > 0)
    && (r.Body? && r.status == 200 ==>
          r.start == 0 && r.end == if done || v.ownerAlive then size - 1 else held - 1)
    && (r.Body? ==> r.status == 200 || r.status == 206)
  }

  /** What the parser guarantees of a range. */
  ghost predicate Parsed(v: Visit, size: nat, p: RangeHeader.Range) {
    && (p.partial ==> RangeGiven(v) && 0 <= p.start <= p.end < size)
    && (!p.partial ==> p == RangeHeader.Whole(size))
  }

  lemma ParsedIs(v: Visit, size: nat)
    ensures Parsed(v, size, RangeHeader.ParseRange(v.range, size))
  {
    PartialFacts(v, size);
    RangeInside(v.range, size);
  }

  lemma RefusesRange(v: Visit, retained: Option<Bytes>, size: nat, p: RangeHeader.Range)
    requires Parsed(v, size, p)
    ensures Refuses(v, retained, size, p, ServeRange(v, retained, size, p).reply)
  {}

  lemma WholeOfRange(v: Visit, retained: Option<Bytes>, size: nat, p: RangeHeader.Range)
    requires Parsed(v, size, p)
    ensures AnswersWhole(v, retained, size, p, ServeRange(v, retained, size, p).reply)
  {}

  /** Exactly which downloads are refused, and with which status. */
  lemma RefusedIff(v: Visit, retained: Option<Bytes>, size: nat)
    ensures Refuses(v, retained, size, RangeHeader.ParseRange(v.range, size), Serve(v, retained, size).reply)
  {
    ParsedIs(v, size);
    RefusesRange(v, retained, size, RangeHeader.ParseRange(v.range, size));
  }

  /** Exactly which downloads are answered without a range, and what they
      announce. */
  lemma PlainIff(v: Visit, retained: Option<Bytes>, size: nat)
    ensures AnswersWhole(v, retained, size, RangeHeader.ParseRange(v.range, size), Serve(v, retained, size).reply)
  {
    ParsedIs(v, size);
    WholeOfRange(v, retained, size, RangeHeader.ParseRange(v.range, size));
  }

  /** A relay took place that continues the retained prefix. */
  ghost predicate Continues(v: Visit, retained: Option<Bytes>, size: nat, p: RangeHeader.Range) {
    && !Complete(v, retained, size) && v.ownerAlive && v.claimed && (RangeGiven(v) ==> p.partial)
    && p.start <= Received(retained) <= p.end
  }

  lemma RetainedOfRange(v: Visit, retained: Option<Bytes>, p: RangeHeader.Range, file: Bytes)
    requires Prefix(retained, file) && Parsed(v, |file|, p)
    requires v.taken >= |file| && v.pulled >= |file| && v.supply == Slice(file, JobOffset(retained, p.start), p.end)
    ensures ServeRange(v, retained, |file|, p).retained ==
              if Continues(v, retained, |file|, p) then Some(file[..p.end + 1]) else retained
  {
    if JobOffset(retained, p.start) <= p.end {
      SplicedInFull(v, retained, p, file);
    }
  }

  /** An uncut download leaves on disk the file up to the end of its range if
      it was relayed from where the disk ends, and else what there was. */
  lemma RetainedIff(v: Visit, retained: Option<Bytes>, file: Bytes)
    requires Prefix(retained, file) && Uncut(v, retained, file)
    ensures var p := RangeHeader.ParseRange(v.range, |file|);
            Serve(v, retained, |file|).retained ==
              if Continues(v, retained, |file|, p) then Some(file[..p.end + 1]) else retained
  {
    ParsedIs(v, |file|);
    RetainedOfRange(v, retained, RangeHeader.ParseRange(v.range, |file|), file);
  }
}
