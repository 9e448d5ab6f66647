// Why a section of field lines is refused: which of the three reasons is given, and that it is the right one.

module BrokenLines {
  import opened Bytes
  import opened FieldLines
  import opened SentLines
  import opened Locality

  // ----- One step -----

  lemma {:induction false} NameBroken(w: seq<byte>, t: seq<byte>, limit: nat, q: nat)
    requires q < |w|
    ensures
      var r := ScanName(w, limit, q);
      && (r == Stop(CutOff) ==> ScanName(w + [0], limit, q) == Stop(Malformed))
      && (r.Stop? && r != Stop(CutOff) ==> ScanName(w + t, limit, q) == r)
      && (r == Stop(TooLarge) ==> limit <= |w|)
    decreases |w| - q
  {
    if Tchar(w[q]) != 0 && Move(w, limit, q).At? {
      NameBroken(w, t, limit, q + 1);
    }
  }

  lemma {:induction false} OwsBroken(w: seq<byte>, t: seq<byte>, limit: nat, q: nat)
    requires q < |w|
    ensures
      var r := ScanOws(w, limit, q);
      && (r == Stop(CutOff) ==> ScanOws(w + [0], limit, q) == At(|w|))
      && (r.Stop? && r != Stop(CutOff) ==> ScanOws(w + t, limit, q) == r == Stop(TooLarge))
      && (r == Stop(TooLarge) ==> limit <= |w|)
    decreases |w| - q
  {
    if IsOws(w[q]) && Move(w, limit, q).At? {
      OwsBroken(w, t, limit, q + 1);
    }
  }

  lemma {:induction false} ValueBroken(w: seq<byte>, t: seq<byte>, limit: nat, q: nat)
    requires q < |w|
    ensures
      var r := ScanValue(w, limit, q);
      && (r == Stop(CutOff) ==> ScanValue(w + [0], limit, q) == Stop(Malformed))
      && (r.Stop? && r != Stop(CutOff) ==> ScanValue(w + t, limit, q) == r)
      && (r == Stop(TooLarge) ==> limit <= |w|)
    decreases |w| - q
  {
    if IsValueByte(w[q]) && Move(w, limit, q).At? {
      ValueBroken(w, t, limit, q + 1);
    }
  }

  /** With a higher limit the same is found, unless the lower one is exceeded. */
  lemma {:induction false} NameLimited(w: seq<byte>, limit: nat, more: nat, q: nat)
    requires q < |w| && limit <= more
    ensures
      var r := ScanName(w, limit, q);
      (r == ScanName(w, more, q) || r == Stop(TooLarge)) && (r.At? && q < limit ==> r.pos < limit)
    decreases |w| - q
  {
    if Tchar(w[q]) != 0 && Move(w, limit, q).At? {
      NameLimited(w, limit, more, q + 1);
    }
  }

  lemma {:induction false} OwsLimited(w: seq<byte>, limit: nat, more: nat, q: nat)
    requires q < |w| && limit <= more
    ensures
      var r := ScanOws(w, limit, q);
      (r == ScanOws(w, more, q) || r == Stop(TooLarge)) && (r.At? && q < limit ==> r.pos < limit)
    decreases |w| - q
  {
    if IsOws(w[q]) && Move(w, limit, q).At? {
      OwsLimited(w, limit, more, q + 1);
    }
  }

  lemma {:induction false} ValueLimited(w: seq<byte>, limit: nat, more: nat, q: nat)
    requires q < |w| && limit <= more
    ensures
      var r := ScanValue(w, limit, q);
      (r == ScanValue(w, more, q) || r == Stop(TooLarge)) && (r.At? && q < limit ==> r.pos < limit)
    decreases |w| - q
  {
    if IsValueByte(w[q]) && Move(w, limit, q).At? {
      ValueLimited(w, limit, more, q + 1);
    }
  }

  // ----- One line -----

  lemma StartBroken(w: seq<byte>, t: seq<byte>, limit: nat, p: nat)
    requires p < |w|
    ensures
      var r := ParseStart(w, limit, p);
      && (r == NoStart(CutOff) ==> ParseLine(w + [0], limit, p) == NoLine(Malformed))
      && (r.NoStart? && r != NoStart(CutOff) ==> ParseStart(w + t, limit, p) == r)
      && (r == NoStart(TooLarge) ==> limit <= |w|)
  {
    hide ScanName, ScanOws;
    NameBroken(w, t, limit, p);
    if ScanName(w, limit, p).At? {
      var c := ScanName(w, limit, p).pos;
      NameLocal(w, w + [0], limit, p);
      NameLocal(w, w + t, limit, p);
      if Move(w, limit, c).At? {
        OwsBroken(w, t, limit, c + 1);
      } else if c + 1 < limit {
        assert ScanOws(w + [0], limit, |w|) == At(|w|) by {
          NulEndsBlanks(w, limit);
        }
      }
    }
  }

  lemma NulEndsBlanks(w: seq<byte>, limit: nat)
    ensures ScanOws(w + [0], limit, |w|) == At(|w|)
  {
  }

  lemma LineBroken(w: seq<byte>, t: seq<byte>, limit: nat, p: nat)
    requires p < |w|
    ensures
      var r := ParseLine(w, limit, p);
      && (r == NoLine(CutOff) ==> ParseLine(w + [0], limit, p) == NoLine(Malformed))
      && (r.NoLine? && r != NoLine(CutOff) ==> ParseLine(w + t, limit, p) == r)
      && (r == NoLine(TooLarge) ==> limit <= |w|)
  {
    hide ParseStart, ScanValue, LineAt;
    StartBroken(w, t, limit, p);
    if ParseStart(w, limit, p).StartAt? {
      StartLocal(w, w + [0], limit, p);
      StartLocal(w, w + t, limit, p);
      ValueBroken(w, t, limit, ParseStart(w, limit, p).value);
    }
  }

  lemma LineLimited(w: seq<byte>, limit: nat, more: nat, p: nat)
    requires p < |w| && limit <= more
    ensures
      var r := ParseLine(w, limit, p);
      (r == ParseLine(w, more, p) || r == NoLine(TooLarge)) && (r.LineTo? && p < limit ==> r.lf < limit)
  {
    hide ScanName, ScanOws, ScanValue, LineAt;
    NameLimited(w, limit, more, p);
    if ScanName(w, limit, p).At? && Move(w, limit, ScanName(w, limit, p).pos).At? {
      var o := ScanName(w, limit, p).pos + 1;
      OwsLimited(w, limit, more, o);
      if ScanOws(w, limit, o).At? {
        ValueLimited(w, limit, more, ScanOws(w, limit, o).pos);
      }
    }
  }

  // ----- A section -----

  /** What is malformed or too large stays so, whatever follows, and what is cut off is not: it is refused only when
      something that must not stand there follows. It is too large only for a limit that it reaches, of bytes or of
      lines. */
  lemma {:induction false} WhyBroken(w: seq<byte>, t: seq<byte>, limit: nat, p: nat, room: nat)
    requires p < |w|
    ensures
      var r := ParseSection(w, limit, p, room);
      && (r == Broken(CutOff) ==> ParseSection(w + [0], limit, p, room) == Broken(Malformed))
      && (r.Broken? && r != Broken(CutOff) ==> ParseSection(w + t, limit, p, room) == r)
      && (r == Broken(TooLarge) ==> limit <= |w| || room < |w| - p)
    decreases |w| - p
  {
    hide ParseLine;
    if w[p] != CR && w[p] != LF {
      LineBroken(w, t, limit, p);
      if ParseLine(w, limit, p).LineTo? {
        var lf := ParseLine(w, limit, p).lf;
        LineLocal(w, w + [0], limit, p);
        LineLocal(w, w + t, limit, p);
        if room > 0 && Move(w, limit, lf).At? {
          WhyBroken(w, t, limit, lf + 1, room - 1);
        } else if room > 0 && lf + 1 < limit {
          NulStartsNothing(w, limit, room - 1);
        }
      }
    }
  }

  lemma NulStartsNothing(w: seq<byte>, limit: nat, room: nat)
    ensures ParseSection(w + [0], limit, |w|, room) == Broken(Malformed)
  {
    assert ScanName(w + [0], limit, |w|) == Stop(Malformed);
  }

  /** With more room the same is received, unless the limits are exceeded; what is received is within them. */
  lemma {:induction false} SectionLimited(w: seq<byte>, limit: nat, more: nat, p: nat, room: nat, large: nat)
    requires p < |w| && limit <= more && room <= large
    ensures
      var r := ParseSection(w, limit, p, room);
      && (r == ParseSection(w, more, p, large) || r == Broken(TooLarge))
      && (r.Lines? && p < limit ==> r.end < limit && |r.lines| <= room)
    decreases |w| - p
  {
    hide ParseLine;
    if w[p] != CR && w[p] != LF {
      LineLimited(w, limit, more, p);
      if ParseLine(w, limit, p).LineTo? && room > 0 && Move(w, limit, ParseLine(w, limit, p).lf).At? {
        SectionLimited(w, limit, more, ParseLine(w, limit, p).lf + 1, room - 1, large - 1);
      }
    }
  }

  // ----- What was sent -----

  /** As long as a section that fits has not arrived to its end, it is cut off. */
  lemma PartIsCutOff(w: seq<byte>, n: nat, p: nat, sent: seq<Sent>, eol: seq<byte>, limit: nat, room: nat)
    requires AllLegal(sent) && IsLineEnd(eol) && StandsAt(w, p, Texts(sent) + eol)
    requires p + |Texts(sent)| + |eol| <= limit && |sent| <= room
    requires p < n < p + |Texts(sent)| + |eol|
    ensures ParseSection(w[..n], limit, p, room) == Broken(CutOff)
  {
    hide ParseSection, AllLegal, Texts, IsLineEnd, MeanAll;
    var part := w[..n];
    SentSectionParsed(w, p, sent, eol, limit, room);
    if ParseSection(part, limit, p, room).Lines? {
      SectionLocal(part, w, limit, p, room);
    } else {
      WhyBroken(part, w[n..], limit, p, room);
      assert part + w[n..] == w;
    }
  }

  /** A section that does not fit, for its bytes or for its lines, is too large. */
  lemma TooMuchIsTooLarge(w: seq<byte>, p: nat, sent: seq<Sent>, eol: seq<byte>, limit: nat, room: nat)
    requires AllLegal(sent) && IsLineEnd(eol) && StandsAt(w, p, Texts(sent) + eol) && p < limit
    requires p + |Texts(sent)| + |eol| > limit || |sent| > room
    ensures p < |w| && ParseSection(w, limit, p, room) == Broken(TooLarge)
  {
    hide ParseSection, AllLegal, Texts, IsLineEnd;
    var more, large := limit + p + |Texts(sent)| + |eol|, room + |sent|;
    SentSectionParsed(w, p, sent, eol, more, large);
    SectionLimited(w, limit, more, p, room, large);
  }
}
