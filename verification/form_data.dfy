/**
 Parsing of the `POST /query` body: the body is cut at every `&`, each piece
 is cut at its first `=`, and the pieces that hold an `=` are collected into a
 key/value map in which a later key replaces an earlier one. No
 percent-decoding and no `+`-to-space translation takes place: keys and values
 are taken from the body verbatim.
 */
module FormData {
  import opened Wrappers

  type Form = map<string, string>

  /** Index of the first occurrence of `c` in `s`, if there is one. */
  function FindFirst(s: string, c: char): (r: Option<nat>)
    ensures r.None? <==> c !in s
    ensures r.Some? ==> r.value < |s| && s[r.value] == c && c !in s[..r.value]
  {
    if |s| == 0 then None
    else if s[0] == c then Some(0)
    else
      match FindFirst(s[1..], c)
      case None => None
      case Some(i) =>
        assert s[..i + 1] == [s[0]] + s[1..][..i];
        Some(i + 1)
  }

  /** The first occurrence is the only position before which `c` is absent. */
  lemma FindFirstAt(s: string, c: char, i: nat)
    requires i < |s| && s[i] == c && c !in s[..i]
    ensures FindFirst(s, c) == Some(i)
  {
  }

  /** The pieces glued back together with `sep` between neighbours. */
  function Join(parts: seq<string>, sep: char): string
    requires |parts| > 0
  {
    if |parts| == 1 then parts[0] else parts[0] + [sep] + Join(parts[1..], sep)
  }

  lemma {:induction false} JoinAppend(xs: seq<string>, ys: seq<string>, sep: char)
    requires |xs| > 0 && |ys| > 0
    ensures Join(xs + ys, sep) == Join(xs, sep) + [sep] + Join(ys, sep)
    decreases |xs|
  {
    if |xs| == 1 {
      assert (xs + ys)[1..] == ys;
    } else {
      assert (xs + ys)[1..] == xs[1..] + ys;
      JoinAppend(xs[1..], ys, sep);
    }
  }

  /**
   Rust's `str::split` on one separator character: the pieces between
   consecutive separators, in order. There is always at least one piece; the
   empty string gives the single empty piece.
   */
  function Split(s: string, sep: char): (parts: seq<string>)
    ensures |parts| > 0
    ensures forall i :: 0 <= i < |parts| ==> sep !in parts[i]
    ensures Join(parts, sep) == s
    decreases |s|
  {
    match FindFirst(s, sep)
    case None => [s]
    case Some(i) =>
      var rest := Split(s[i + 1..], sep);
      assert ([s[..i]] + rest)[1..] == rest;
      assert s == s[..i] + [sep] + s[i + 1..];
      [s[..i]] + rest
  }

  /** Splitting undoes joining: the pieces of a join are recovered exactly. */
  lemma {:induction false} SplitJoin(parts: seq<string>, sep: char)
    requires |parts| > 0
    requires forall i :: 0 <= i < |parts| ==> sep !in parts[i]
    ensures Split(Join(parts, sep), sep) == parts
    decreases |parts|
  {
    if |parts| == 1 {
      assert sep !in parts[0];
    } else {
      var p := parts[0];
      var rest := Join(parts[1..], sep);
      var s := p + [sep] + rest;
      assert s[..|p|] == p;
      FindFirstAt(s, sep, |p|);
      assert s[|p| + 1..] == rest;
      SplitJoin(parts[1..], sep);
      assert [p] + parts[1..] == parts;
    }
  }

  /** Splitting `a + sep + b` gives the pieces of `a` followed by those of `b`. */
  lemma SplitConcat(a: string, b: string, sep: char)
    ensures Split(a + [sep] + b, sep) == Split(a, sep) + Split(b, sep)
  {
    var xs := Split(a, sep);
    var ys := Split(b, sep);
    JoinAppend(xs, ys, sep);
    assert forall i :: 0 <= i < |xs + ys| ==> sep !in (xs + ys)[i] by {
      forall i | 0 <= i < |xs + ys|
        ensures sep !in (xs + ys)[i]
      {
        if i < |xs| { assert (xs + ys)[i] == xs[i]; } else { assert (xs + ys)[i] == ys[i - |xs|]; }
      }
    }
    SplitJoin(xs + ys, sep);
  }

  /** `piece` occurs in `s` starting at position `p`. */
  predicate OccursAt(piece: string, s: string, p: nat)
  {
    p + |piece| <= |s| && s[p..p + |piece|] == piece
  }

  /** `piece` occurs verbatim somewhere inside `s`. */
  ghost predicate IsInfix(piece: string, s: string)
  {
    exists p: nat :: OccursAt(piece, s, p)
  }

  lemma {:induction false} JoinedPartsAreInfixes(parts: seq<string>, sep: char, i: nat)
    requires |parts| > 0 && i < |parts|
    ensures IsInfix(parts[i], Join(parts, sep))
    decreases |parts|
  {
    var s := Join(parts, sep);
    if |parts| == 1 || i == 0 {
      assert OccursAt(parts[i], s, 0);
    } else {
      JoinedPartsAreInfixes(parts[1..], sep, i - 1);
      var rest := Join(parts[1..], sep);
      var p: nat :| OccursAt(parts[i], rest, p);
      var off := |parts[0]| + 1;
      assert s == parts[0] + [sep] + rest;
      assert s[off + p..off + p + |parts[i]|] == rest[p..p + |parts[i]|];
      assert OccursAt(parts[i], s, off + p);
    }
  }

  /** Every piece of `Split(s, sep)` is a verbatim substring of `s`. */
  lemma SplitPiecesAreInfixes(s: string, sep: char)
    ensures forall i :: 0 <= i < |Split(s, sep)| ==> IsInfix(Split(s, sep)[i], s)
  {
    var parts := Split(s, sep);
    forall i | 0 <= i < |parts|
      ensures IsInfix(parts[i], s)
    {
      JoinedPartsAreInfixes(parts, sep, i);
    }
  }

  /**
   Rust's `str::split_once` on one character: the text before and after the
   FIRST occurrence of `sep`, or nothing when `sep` does not occur. The second
   half may still contain `sep`.
   */
  function SplitOnce(s: string, sep: char): (r: Option<(string, string)>)
    ensures r.None? <==> sep !in s
    ensures r.Some? ==> r.value.0 + [sep] + r.value.1 == s && sep !in r.value.0
  {
    match FindFirst(s, sep)
    case None => None
    case Some(i) =>
      assert s == s[..i] + [sep] + s[i + 1..];
      Some((s[..i], s[i + 1..]))
  }

  /** `SplitOnce` inverts gluing a separator-free head to any tail. */
  lemma SplitOnceGlue(head: string, tail: string, sep: char)
    requires sep !in head
    ensures SplitOnce(head + [sep] + tail, sep) == Some((head, tail))
  {
    var s := head + [sep] + tail;
    assert s[..|head|] == head;
    FindFirstAt(s, sep, |head|);
    assert s[|head| + 1..] == tail;
  }

  /** The key a segment binds: the text before its first `=`, if it has one. */
  function SegmentKey(segment: string): Option<string>
  {
    match SplitOnce(segment, '=')
    case None => None
    case Some(kv) => Some(kv.0)
  }

  /** `segment` reads `k=v` with `k` free of `=`. */
  predicate Binds(segment: string, k: string, v: string)
  {
    SplitOnce(segment, '=') == Some((k, v))
  }

  /** Some segment binds key `k`. */
  ghost predicate BindsKey(segments: seq<string>, k: string)
  {
    exists i :: 0 <= i < |segments| && SegmentKey(segments[i]) == Some(k)
  }

  /** `v` is the value of the last segment that binds `k`. */
  ghost predicate IsLastBinding(segments: seq<string>, k: string, v: string)
  {
    exists i :: 0 <= i < |segments| && Binds(segments[i], k, v) &&
      forall j :: i < j < |segments| ==> SegmentKey(segments[j]) != Some(k)
  }

  /**
   The map built from the segments in order, each `k=v` segment inserting
   (and overwriting) `k`, a segment with no `=` contributing nothing.
   */
  function Collect(segments: seq<string>): Form
    decreases |segments|
  {
    if |segments| == 0 then map[]
    else
      var earlier := Collect(segments[..|segments| - 1]);
      match SplitOnce(segments[|segments| - 1], '=')
      case None => earlier
      case Some(kv) => earlier[kv.0 := kv.1]
  }

  lemma BindsKeySnoc(init: seq<string>, last: string, k: string)
    ensures BindsKey(init + [last], k) <==> BindsKey(init, k) || SegmentKey(last) == Some(k)
  {
    var segments := init + [last];
    if BindsKey(segments, k) && SegmentKey(last) != Some(k) {
      var i :| 0 <= i < |segments| && SegmentKey(segments[i]) == Some(k);
      assert segments[i] == init[i];
    }
    if BindsKey(init, k) {
      var i :| 0 <= i < |init| && SegmentKey(init[i]) == Some(k);
      assert segments[i] == init[i];
    }
    if SegmentKey(last) == Some(k) {
      assert segments[|init|] == last;
    }
  }

  lemma LastBindingSnoc(init: seq<string>, last: string, k: string, v: string)
    requires IsLastBinding(init, k, v) && SegmentKey(last) != Some(k)
    ensures IsLastBinding(init + [last], k, v)
  {
    var segments := init + [last];
    var i :| 0 <= i < |init| && Binds(init[i], k, v) &&
      forall j :: i < j < |init| ==> SegmentKey(init[j]) != Some(k);
    assert segments[i] == init[i];
    forall j | i < j < |segments|
      ensures SegmentKey(segments[j]) != Some(k)
    {
      if j < |init| { assert segments[j] == init[j]; }
    }
  }

  /** `Collect` holds key `k` exactly when some segment binds it, with the last such value. */
  lemma {:induction false} CollectKey(segments: seq<string>, k: string)
    ensures k in Collect(segments) <==> BindsKey(segments, k)
    ensures k in Collect(segments) ==> IsLastBinding(segments, k, Collect(segments)[k])
    decreases |segments|
  {
    if |segments| > 0 {
      var n := |segments| - 1;
      var init := segments[..n];
      var last := segments[n];
      assert segments == init + [last];
      CollectKey(init, k);
      BindsKeySnoc(init, last, k);
      match SplitOnce(last, '=')
      case None =>
        assert Collect(segments) == Collect(init);
        if k in Collect(init) {
          LastBindingSnoc(init, last, k, Collect(init)[k]);
        }
      case Some(kv) =>
        assert Collect(segments) == Collect(init)[kv.0 := kv.1];
        if kv.0 == k {
          assert Binds(segments[n], k, kv.1);
        } else if k in Collect(init) {
          LastBindingSnoc(init, last, k, Collect(init)[k]);
        }
    }
  }

  /**
   Rust's `parse_form_data`: the body split on `&`, each piece split at its
   first `=`. A key is present exactly when some piece binds it, and its value
   is the one from the last piece that binds it.
   */
  function ParseFormData(content: string): (form: Form)
    ensures forall k :: k in form <==> BindsKey(Split(content, '&'), k)
    ensures forall k :: k in form ==> IsLastBinding(Split(content, '&'), k, form[k])
  {
    var segments := Split(content, '&');
    CollectSpec(segments);
    Collect(segments)
  }

  lemma CollectSpec(segments: seq<string>)
    ensures forall k :: k in Collect(segments) <==> BindsKey(segments, k)
    ensures forall k :: k in Collect(segments) ==> IsLastBinding(segments, k, Collect(segments)[k])
  {
    forall k
      ensures k in Collect(segments) <==> BindsKey(segments, k)
      ensures k in Collect(segments) ==> IsLastBinding(segments, k, Collect(segments)[k])
    {
      CollectKey(segments, k);
    }
  }

  /** Collecting two runs of segments: the later run overrides the earlier. */
  lemma {:induction false} CollectAppend(xs: seq<string>, ys: seq<string>)
    ensures Collect(xs + ys) == Collect(xs) + Collect(ys)
    decreases |ys|
  {
    if |ys| == 0 {
      assert xs + ys == xs;
    } else {
      var zs := xs + ys;
      assert zs[..|zs| - 1] == xs + ys[..|ys| - 1];
      assert zs[|zs| - 1] == ys[|ys| - 1];
      CollectAppend(xs, ys[..|ys| - 1]);
    }
  }

  /**
   Appending `&` and more text to a body: the entries of the appended part
   override those of the original body, nothing else changes.
   */
  lemma ParseAppend(a: string, b: string)
    ensures ParseFormData(a + "&" + b) == ParseFormData(a) + ParseFormData(b)
  {
    SplitConcat(a, b, '&');
    CollectAppend(Split(a, '&'), Split(b, '&'));
  }

  /**
   A single segment `k=v` (no `&` in it, no `=` in `k`) yields exactly the
   entry `k := v`: the value keeps any further `=`, and `k` may be empty.
   */
  lemma ParseSingleBinding(k: string, v: string)
    requires '=' !in k && '&' !in k && '&' !in v
    ensures ParseFormData(k + "=" + v) == map[k := v]
  {
    var seg := k + "=" + v;
    assert '&' !in seg by {
      assert forall i :: 0 <= i < |seg| ==> seg[i] != '&' by {
        forall i | 0 <= i < |seg| ensures seg[i] != '&' {
          if i < |k| { assert seg[i] == k[i]; }
          else if i > |k| { assert seg[i] == v[i - |k| - 1]; }
        }
      }
    }
    SplitJoin([seg], '&');
    SplitOnceGlue(k, v, '=');
    assert [seg][..0] == [];
  }

  /** A character absent from `s` is absent from every piece occurring in `s`. */
  lemma AbsentFromInfix(piece: string, s: string, p: nat, c: char)
    requires OccursAt(piece, s, p) && c !in s
    ensures c !in piece
  {
    forall j | 0 <= j < |piece|
      ensures piece[j] != c
    {
      assert piece[j] == s[p + j];
    }
  }

  /** A body holding no `=` at all yields the empty map; so does the empty body. */
  lemma ParseWithoutEquals(content: string)
    requires '=' !in content
    ensures ParseFormData(content) == map[]
  {
    var segments := Split(content, '&');
    var form := ParseFormData(content);
    SplitPiecesAreInfixes(content, '&');
    forall i | 0 <= i < |segments|
      ensures SegmentKey(segments[i]).None?
    {
      assert IsInfix(segments[i], content);
      var p: nat :| OccursAt(segments[i], content, p);
      AbsentFromInfix(segments[i], content, p, '=');
    }
    assert forall k :: !BindsKey(segments, k);
    assert form.Keys == {};
  }

  /** A segment without `=` appended to a body adds nothing to its map. */
  lemma SegmentWithoutEqualsIgnored(a: string, segment: string)
    requires '=' !in segment
    ensures ParseFormData(a + "&" + segment) == ParseFormData(a)
  {
    ParseAppend(a, segment);
    ParseWithoutEquals(segment);
  }

  /** A binding appended after a body wins over every earlier binding of its key. */
  lemma LastBindingWins(a: string, k: string, v: string)
    requires '=' !in k && '&' !in k && '&' !in v
    ensures k in ParseFormData(a + "&" + k + "=" + v)
    ensures ParseFormData(a + "&" + k + "=" + v)[k] == v
  {
    assert a + "&" + k + "=" + v == a + "&" + (k + "=" + v);
    ParseAppend(a, k + "=" + v);
    ParseSingleBinding(k, v);
  }

  /** Every entry comes verbatim from some segment `k=v` of the body. */
  lemma EntriesAreVerbatim(content: string, k: string)
    requires k in ParseFormData(content)
    ensures exists i :: 0 <= i < |Split(content, '&')| &&
                        Split(content, '&')[i] == k + "=" + ParseFormData(content)[k] &&
                        IsInfix(Split(content, '&')[i], content)
  {
    var segments := Split(content, '&');
    var v := ParseFormData(content)[k];
    assert IsLastBinding(segments, k, v);
    var i :| 0 <= i < |segments| && Binds(segments[i], k, v) &&
      forall j :: i < j < |segments| ==> SegmentKey(segments[j]) != Some(k);
    SplitPiecesAreInfixes(content, '&');
    assert segments[i] == k + "=" + v;
  }
}
