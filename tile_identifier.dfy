/**
 * The tile identifier that `fillBoard` stores with every tile: the image
 * reference with everything through the last `record_` removed (the greedy
 * `.*record_`) and then everything from the first `_vs` or `_rs` on removed
 * (`_[vr]s.*`).
 */
module TileIdentifier {
  import opened Wrappers
  import opened BoardGeneration

  /** `t` occurs in `s` at position `p`. */
  predicate OccursAt(s: string, t: string, p: nat)
  {
    p + |t| <= |s| && forall k :: 0 <= k < |t| ==> s[p + k] == t[k]
  }

  predicate Contains(s: string, t: string)
  {
    exists p: nat | p <= |s| :: OccursAt(s, t, p)
  }

  /** The rest of `s` after its last `record_`, or None when there is none. */
  function AfterLastRecord(s: string): Option<string>
    decreases |s|
  {
    if |s| < |RecordTag| then None
    else match AfterLastRecord(s[1..])
      case Some(r) => Some(r)
      case None => if OccursAt(s, RecordTag, 0) then Some(s[|RecordTag|..]) else None
  }

  lemma OccursAtTail(s: string, t: string, q: nat)
    requires |s| > 0
    ensures OccursAt(s[1..], t, q) <==> OccursAt(s, t, q + 1)
  {
    if OccursAt(s, t, q + 1) {
      forall k | 0 <= k < |t| ensures s[1..][q + k] == t[k] {
        assert s[1..][q + k] == s[q + 1 + k];
      }
    }
  }

  /** The reference meaning of the greedy match: None exactly when `record_` does
      not occur, and otherwise the rest after an occurrence with none later. */
  lemma {:induction false} AfterLastRecordMeaning(s: string)
    ensures AfterLastRecord(s).None? <==> !Contains(s, RecordTag)
    ensures AfterLastRecord(s).Some? ==>
              exists p: nat :: && OccursAt(s, RecordTag, p)
                               && AfterLastRecord(s).value == s[p + |RecordTag|..]
                               && forall q: nat :: p < q ==> !OccursAt(s, RecordTag, q)
    decreases |s|
  {
    if |s| < |RecordTag| {
      forall p: nat ensures !OccursAt(s, RecordTag, p) {
      }
    } else {
      var tail := s[1..];
      AfterLastRecordMeaning(tail);
      forall q: nat ensures OccursAt(tail, RecordTag, q) <==> OccursAt(s, RecordTag, q + 1) {
        OccursAtTail(s, RecordTag, q);
      }
      match AfterLastRecord(tail)
      case Some(r) =>
        var p: nat :| && OccursAt(tail, RecordTag, p)
                      && r == tail[p + |RecordTag|..]
                      && forall q: nat :: p < q ==> !OccursAt(tail, RecordTag, q);
        assert OccursAt(s, RecordTag, p + 1);
        assert r == s[p + 1 + |RecordTag|..];
        forall q: nat | p + 1 < q ensures !OccursAt(s, RecordTag, q) {
          assert !OccursAt(tail, RecordTag, q - 1);
        }
      case None =>
        forall q: nat | 0 < q ensures !OccursAt(s, RecordTag, q) {
          assert !OccursAt(tail, RecordTag, q - 1);
        }
        if !OccursAt(s, RecordTag, 0) {
          forall q: nat ensures !OccursAt(s, RecordTag, q) {
          }
        }
    }
  }

  /** The first regular expression `.*record_`: strip through the last `record_`. */
  function StripThroughRecord(s: string): string
  {
    match AfterLastRecord(s)
    case Some(r) => r
    case None => s
  }

  /** `_vs` or `_rs` occurs in `s` at position `p`. */
  predicate SideAt(s: string, p: nat)
  {
    p + 3 <= |s| && s[p] == '_' && (s[p + 1] == 'v' || s[p + 1] == 'r') && s[p + 2] == 's'
  }

  /** The second regular expression `_[vr]s.*`: cut at the leftmost `_vs`/`_rs`.
      The result is the longest prefix free of them, followed in `s` by one. */
  function CutSide(s: string): (r: string)
    ensures |r| <= |s| && r == s[..|r|]
    ensures forall p: nat :: p < |r| ==> !SideAt(s, p)
    ensures |r| < |s| ==> SideAt(s, |r|)
  {
    if |s| < 3 then s
    else if SideAt(s, 0) then []
    else
      var rest := CutSide(s[1..]);
      assert forall p: nat | 1 <= p :: SideAt(s, p) <==> SideAt(s[1..], p - 1);
      [s[0]] + rest
  }

  /** The identifier extracted from an image reference at `fillBoard`. */
  function IdentifierOf(url: string): string
  {
    CutSide(StripThroughRecord(url))
  }

  /** Whatever the reference, the extracted identifier is a piece of it, right
      after its last `record_` (or from its start when there is none), and it
      holds no `_vs`/`_rs`. */
  lemma IdentifierIsPieceOfUrl(url: string)
    ensures |StripThroughRecord(url)| <= |url|
    ensures OccursAt(url, IdentifierOf(url), |url| - |StripThroughRecord(url)|)
    ensures forall p: nat | p < |IdentifierOf(url)| :: !SideAt(IdentifierOf(url), p)
  {
    AfterLastRecordMeaning(url);
    var rest := StripThroughRecord(url);
    assert rest == url[|url| - |rest|..];
    var id := CutSide(rest);
    assert forall p: nat | p < |id| :: SideAt(id, p) ==> SideAt(rest, p);
  }

  /** A sufficient condition for the extraction to recover a coin identifier:
      it contains neither `record_` nor `_vs`/`_rs`, and it does not end in
      `record` (which would form a `record_` with the side suffix that follows
      it). Some identifiers outside it are still recovered, depending on the
      URL's tail. */
  predicate PlainId(id: string)
  {
    && !Contains(id, RecordTag)
    && (forall p: nat | p < |id| :: !SideAt(id, p))
    && !(|id| >= 6 && OccursAt(id, "record", |id| - 6))
  }

  lemma AbsentMeansNone(s: string)
    requires !Contains(s, RecordTag)
    ensures AfterLastRecord(s) == None
  {
    AfterLastRecordMeaning(s);
  }

  /** A `record_` followed by text that, together with the tag's own tail, holds
      no further `record_` is the last one. */
  lemma {:induction false} LastRecordTag(u: string, v: string)
    requires !Contains(RecordTag[1..] + v, RecordTag)
    ensures AfterLastRecord(u + RecordTag + v) == Some(v)
    decreases |u|
  {
    var s := u + RecordTag + v;
    if u == [] {
      assert s[1..] == RecordTag[1..] + v;
      AbsentMeansNone(s[1..]);
      assert OccursAt(s, RecordTag, 0);
      assert s[|RecordTag|..] == v;
    } else {
      assert s[1..] == u[1..] + RecordTag + v;
      LastRecordTag(u[1..], v);
    }
  }

  /** No `record_` after the folder's tag: the identifier, the side suffix, `.jpg`
      and the URL's opaque tail. */
  lemma NoRecordTagAfterFolder(id: string, useBack: bool, after: string)
    requires PlainId(id) && !Contains(after, RecordTag)
    ensures !Contains(RecordTag[1..] + (id + SideSuffix(useBack) + ".jpg" + after), RecordTag)
  {
    var x := RecordTag[1..] + (id + SideSuffix(useBack) + ".jpg" + after);
    forall p: nat | p <= |x| ensures !OccursAt(x, RecordTag, p) {
      NoRecordTagAtAfterFolder(id, useBack, after, p);
    }
  }

  /** One position of `NoRecordTagAfterFolder`, by the part of the reference it
      falls in: the tag's tail, the identifier, its end, the suffix or the tail. */
  lemma NoRecordTagAtAfterFolder(id: string, useBack: bool, after: string, p: nat)
    requires PlainId(id) && !Contains(after, RecordTag)
    ensures !OccursAt(RecordTag[1..] + (id + SideSuffix(useBack) + ".jpg" + after), RecordTag, p)
  {
    var a := RecordTag[1..];
    var b := SideSuffix(useBack) + ".jpg";
    var x := a + (id + SideSuffix(useBack) + ".jpg" + after);
    var n := |id|;
    assert x == a + id + b + after;
    assert x[..6] == a && x[6..6 + n] == id && x[6 + n..13 + n] == b && x[13 + n..] == after;
    FixedPartsNoRe(useBack);
    if p < 6 {
      NoRecordTagInPlainPart(x, 0, a, p);
    } else if p + 7 <= 6 + n {
      NoRecordTagInside(x, 6, id, p);
    } else if p < 6 + n {
      assert x[6 + n] == b[0];
      NoRecordTagAtIdEnd(x, 6, id, p);
    } else if p < 13 + n {
      NoRecordTagInPlainPart(x, 6 + n, b, p);
    } else {
      NoRecordTagInside(x, 13 + n, after, p);
    }
  }

  /** Every `r` of `b` is followed within `b` by a letter other than `e`. */
  predicate NoRe(b: string)
  {
    forall k | 0 <= k < |b| :: b[k] == 'r' ==> k + 1 < |b| && b[k + 1] != 'e'
  }

  /** The fixed parts around an identifier hold no `re`. */
  lemma FixedPartsNoRe(useBack: bool)
    ensures NoRe(RecordTag[1..])
    ensures NoRe(SideSuffix(useBack) + ".jpg") && NoRe(SideSuffix(useBack)[1..] + ".jpg")
  {
    assert RecordTag[1..] == "ecord_";
    if useBack {
      assert SideSuffix(useBack) + ".jpg" == "_rs.jpg";
      assert SideSuffix(useBack)[1..] + ".jpg" == "rs.jpg";
    } else {
      assert SideSuffix(useBack) + ".jpg" == "_vs.jpg";
      assert SideSuffix(useBack)[1..] + ".jpg" == "vs.jpg";
    }
  }

  /** No `record_` starts inside a part of the reference with no `re`. */
  lemma NoRecordTagInPlainPart(x: string, o: nat, b: string, p: nat)
    requires o + |b| <= |x| && x[o..o + |b|] == b && NoRe(b)
    requires o <= p < o + |b|
    ensures !OccursAt(x, RecordTag, p)
  {
    assert RecordTag[0] == 'r' && RecordTag[1] == 'e';
    assert x[p] == b[p - o];
    if b[p - o] == 'r' {
      assert x[p + 1] == b[p - o + 1];
    }
  }

  /** No `record_` lies wholly inside a part of the reference that has none. */
  lemma NoRecordTagInside(x: string, o: nat, y: string, p: nat)
    requires o + |y| <= |x| && x[o..o + |y|] == y && !Contains(y, RecordTag)
    requires o <= p
    ensures p + 7 <= o + |y| ==> !OccursAt(x, RecordTag, p)
  {
    if p + 7 <= o + |y| {
      var q := p - o;
      assert !OccursAt(y, RecordTag, q);
      var k :| 0 <= k < 7 && y[q + k] != RecordTag[k];
      assert x[p + k] == y[q + k];
    }
  }

  /** No `record_` ends in the `_` after an identifier that does not end in `record`. */
  lemma NoRecordTagAtIdEnd(x: string, o: nat, id: string, p: nat)
    requires o + |id| < |x| && x[o..o + |id|] == id && x[o + |id|] == '_'
    requires !(|id| >= 6 && OccursAt(id, "record", |id| - 6))
    requires o <= p < o + |id| < p + 7
    ensures !OccursAt(x, RecordTag, p)
  {
    var n := |id|;
    var j := o + n - p;
    if j < 6 {
      assert RecordTag[j] != '_' by {
        assert j == 1 || j == 2 || j == 3 || j == 4 || j == 5;
      }
    } else {
      var k :| 0 <= k < 6 && id[n - 6 + k] != "record"[k];
      assert x[p + k] == id[n - 6 + k] && RecordTag[k] == "record"[k];
    }
  }

  /** Cutting at the side suffix that follows a plain identifier gives the identifier. */
  lemma {:induction false} CutSideAfterPlainId(id: string, rest: string)
    requires forall p: nat | p < |id| :: !SideAt(id, p)
    requires SideAt(rest, 0)
    ensures CutSide(id + rest) == id
    decreases |id|
  {
    var s := id + rest;
    if id == [] {
      assert s == rest;
    } else {
      assert !SideAt(s, 0) by {
        if |id| >= 3 {
          assert !SideAt(id, 0);
        }
      }
      assert s[1..] == id[1..] + rest;
      forall p: nat | p < |id[1..]| ensures !SideAt(id[1..], p) {
        assert !SideAt(id, p + 1);
      }
      CutSideAfterPlainId(id[1..], rest);
      assert |s| >= 3 && s[0] == id[0];
      assert CutSide(s) == [s[0]] + CutSide(s[1..]);
      assert id == [id[0]] + id[1..];
    }
  }

  /** The image reference up to the folder's own `record_`: the wrapper's head,
      the data prefix and the folder with its slash. */
  function ImageHead(w: UrlWrap, c: Coin): string
  {
    w.before + DataRoot + c.magic + MediaDir + RecordTag + c.id + "/"
  }

  /** An image reference is its head, the file name's `record_`, and the rest. */
  lemma ImageUrlShape(w: UrlWrap, c: Coin, useBack: bool)
    ensures ImageUrl(w, c, useBack) == ImageHead(w, c) + RecordTag + (c.id + SideSuffix(useBack) + ".jpg" + w.after)
  {
    Regroup(w.before, DataRoot + c.magic + MediaDir, RecordTag, c.id, "/", SideSuffix(useBack) + ".jpg", w.after);
  }

  /** The regrouping behind `ImageUrlShape`, on plain sequences. */
  lemma Regroup(u: string, prefix: string, tag: string, id: string, slash: string, file: string, z: string)
    ensures u + (prefix + (tag + id) + slash + ((tag + id) + file)) + z
         == (u + prefix + tag + id + slash) + tag + (id + file + z)
  {
  }

  /** The round trip of `fillBoard`: the identifier extracted from either image
      reference of a coin is the coin's identifier. */
  lemma IdentifierOfImageUrl(w: UrlWrap, c: Coin, useBack: bool)
    requires PlainId(c.id) && !Contains(w.after, RecordTag)
    ensures IdentifierOf(ImageUrl(w, c, useBack)) == c.id
  {
    var rest := SideSuffix(useBack) + ".jpg" + w.after;
    var v := c.id + rest;
    ImageUrlShape(w, c, useBack);
    assert v == c.id + SideSuffix(useBack) + ".jpg" + w.after;
    NoRecordTagAfterFolder(c.id, useBack, w.after);
    LastRecordTag(ImageHead(w, c), v);
    assert StripThroughRecord(ImageUrl(w, c, useBack)) == v;
    assert SideAt(rest, 0);
    CutSideAfterPlainId(c.id, rest);
  }

  /** Why `PlainId` forbids a trailing `record`: the identifier `record` contains
      neither `record_` nor `_vs`/`_rs`, yet its front and back images yield
      identifiers that differ from it and from each other, so in the difficult
      mode its two tiles can never be matched. */
  lemma IdentifierEndingInRecord(w: UrlWrap, year: int, magic: string)
    requires !Contains(w.after, RecordTag)
    ensures !Contains("record", RecordTag) && forall p: nat | p < 6 :: !SideAt("record", p)
    ensures IdentifierOf(ImageUrl(w, Coin("record", year, magic), false)) != "record"
    ensures IdentifierOf(ImageUrl(w, Coin("record", year, magic), false))
            != IdentifierOf(ImageUrl(w, Coin("record", year, magic), true))
  {
    var c := Coin("record", year, magic);
    assert !Contains("record", RecordTag) by {
      forall p: nat ensures !OccursAt("record", RecordTag, p) {
      }
    }
    forall p: nat | p < 6 ensures !SideAt("record", p) {
      if p < 4 {
        assert p == 0 || p == 1 || p == 2 || p == 3;
      }
    }
    RecordIdFirstChar(w, c, false);
    RecordIdFirstChar(w, c, true);
  }

  /** The identifier extracted for the coin `record` starts with the letter of
      the side suffix. */
  lemma RecordIdFirstChar(w: UrlWrap, c: Coin, useBack: bool)
    requires c.id == "record" && !Contains(w.after, RecordTag)
    ensures |IdentifierOf(ImageUrl(w, c, useBack))| > 0
    ensures IdentifierOf(ImageUrl(w, c, useBack))[0] == if useBack then 'r' else 'v'
  {
    var v := SideSuffix(useBack)[1..] + ".jpg" + w.after;
    RecordIdStrip(w, c, useBack);
    assert IdentifierOf(ImageUrl(w, c, useBack)) == CutSide(v);
    assert |v| >= 3 && v[0] == SideSuffix(useBack)[1] && !SideAt(v, 0);
    assert CutSide(v) == [v[0]] + CutSide(v[1..]);
  }

  /** For the coin `record`, the last `record_` of its image reference is the one
      that ends in the underscore of the side suffix. */
  lemma RecordIdStrip(w: UrlWrap, c: Coin, useBack: bool)
    requires c.id == "record" && !Contains(w.after, RecordTag)
    ensures StripThroughRecord(ImageUrl(w, c, useBack)) == SideSuffix(useBack)[1..] + ".jpg" + w.after
  {
    var side := SideSuffix(useBack);
    var v := side[1..] + ".jpg" + w.after;
    ImageUrlShape(w, c, useBack);
    assert c.id + side == RecordTag + side[1..];
    assert c.id + side + ".jpg" + w.after == RecordTag + v;
    assert ImageUrl(w, c, useBack) == (ImageHead(w, c) + RecordTag) + RecordTag + v;
    NoRecordTagAfterSideLetter(useBack, w.after);
    LastRecordTag(ImageHead(w, c) + RecordTag, v);
  }

  /** No `record_` after the tag that the identifier `record` forms with the
      underscore of the side suffix. */
  lemma NoRecordTagAfterSideLetter(useBack: bool, after: string)
    requires !Contains(after, RecordTag)
    ensures !Contains(RecordTag[1..] + (SideSuffix(useBack)[1..] + ".jpg" + after), RecordTag)
  {
    var x := RecordTag[1..] + (SideSuffix(useBack)[1..] + ".jpg" + after);
    forall p: nat | p <= |x| ensures !OccursAt(x, RecordTag, p) {
      NoRecordTagAtAfterSideLetter(useBack, after, p);
    }
  }

  /** One position of `NoRecordTagAfterSideLetter`. */
  lemma NoRecordTagAtAfterSideLetter(useBack: bool, after: string, p: nat)
    requires !Contains(after, RecordTag)
    ensures !OccursAt(RecordTag[1..] + (SideSuffix(useBack)[1..] + ".jpg" + after), RecordTag, p)
  {
    var a := RecordTag[1..];
    var b := SideSuffix(useBack)[1..] + ".jpg";
    var x := a + (SideSuffix(useBack)[1..] + ".jpg" + after);
    assert x == a + b + after;
    assert x[..6] == a && x[6..12] == b && x[12..] == after;
    FixedPartsNoRe(useBack);
    if p < 6 {
      NoRecordTagInPlainPart(x, 0, a, p);
    } else if p < 12 {
      NoRecordTagInPlainPart(x, 6, b, p);
    } else {
      NoRecordTagInside(x, 12, after, p);
    }
  }
}
