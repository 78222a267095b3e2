/**
 The software rasterizer under a compositor damage mask: rectangle fills, single
 pixels, in-place scrolling and presentation of the changed regions.
 */
module Raster {

  const INT32_MAX: int := 0x7FFF_FFFF
  const MAX_REGIONS: nat := 16

  datatype Rect = Rect(x: int, y: int, width: int, height: int)

  predicate Inside(r: Rect, x: int, y: int) {
    r.x <= x < r.x + r.width && r.y <= y < r.y + r.height
  }

  datatype Clip = NoClip | ClipTo(left: int, top: int, right: int, bottom: int)

  predicate InClip(c: Clip, x: int, y: int) {
    c.ClipTo? ==> c.left <= x < c.right && c.top <= y < c.bottom
  }

  function Max(a: int, b: int): int {
    if a > b then a else b
  }

  function Min(a: int, b: int): int {
    if a < b then a else b
  }

  predicate InAny(regions: seq<Rect>, x: int, y: int) {
    exists i :: 0 <= i < |regions| && Inside(regions[i], x, y)
  }

  /** The part of the input on the screen; empty when nothing is left. */
  function ClipRect(r: Rect, width: int, height: int): (c: Rect)
    requires width > 0 && height > 0
    ensures forall x, y :: Inside(c, x, y) <==> Inside(r, x, y) && 0 <= x < width && 0 <= y < height
    ensures c.width > 0 ==> 0 <= c.x && c.x + c.width <= width && 0 <= c.y && 0 < c.height && c.y + c.height <= height
  {
    var left, top := Max(r.x, 0), Max(r.y, 0);
    var right, bottom := Min(r.x + r.width, width), Min(r.y + r.height, height);
    if r.width <= 0 || r.height <= 0 || left >= right || top >= bottom then Rect(0, 0, 0, 0)
    else Rect(left, top, right - left, bottom - top)
  }

  function MakeClip(r: Rect, width: int, height: int): Clip {
    if r.width <= 0 || r.height <= 0 then ClipTo(0, 0, 0, 0)
    else
      var left, top := Max(r.x, 0), Max(r.y, 0);
      ClipTo(left, top, Max(Min(r.x + r.width, width), left), Max(Min(r.y + r.height, height), top))
  }

  // ----- What the commands mean, one pixel at a time -----

  datatype Command =
    | FillRect(rect: Rect, color: int)
    | PutPixel(x: int, y: int, color: int)
    | SetClip(rect: Rect)
    | ResetClip
    | Clear(color: int)

  function ClipAfter(width: int, height: int, command: Command, clip: Clip): Clip {
    match command
    case SetClip(rect) => MakeClip(rect, width, height)
    case ResetClip => NoClip
    case Clear(_) => NoClip
    case _ => clip
  }

  /** Whether the command paints (x, y) when nothing is masked. */
  predicate Paints(command: Command, clip: Clip, x: int, y: int) {
    match command
    case FillRect(rect, _) => Inside(rect, x, y) && InClip(clip, x, y)
    case PutPixel(px, py, _) => x == px && y == py && InClip(clip, x, y)
    case Clear(_) => true
    case _ => false
  }

  /** Pixel (x, y) after one command under a mask that lets it through or not. */
  function PixelAfter(command: Command, clip: Clip, open: bool, x: int, y: int, was: int): int {
    if open && Paints(command, clip, x, y) then command.color else was
  }

  /** Pixel (x, y) after a whole sequence of commands. */
  function PixelAfterAll(
    width: int, height: int, commands: seq<Command>, clip: Clip, open: bool, x: int, y: int, was: int): int
  {
    if commands == [] then was
    else PixelAfterAll(width, height, commands[1..], ClipAfter(width, height, commands[0], clip), open, x, y,
                       PixelAfter(commands[0], clip, open, x, y, was))
  }

  /** A masked-out pixel keeps its value through any sequence of commands. */
  lemma {:induction false} MaskedPixelsKept(
    width: int, height: int, commands: seq<Command>, clip: Clip, x: int, y: int, was: int)
    ensures PixelAfterAll(width, height, commands, clip, false, x, y, was) == was
  {
    if commands != [] {
      MaskedPixelsKept(width, height, commands[1..], ClipAfter(width, height, commands[0], clip), x, y, was);
    }
  }

  // ----- The screen -----

  class Screen {
    const width: int
    const height: int
    const back: array2<int>    // the buffer drawn into
    const front: array2<int>   // the buffer shown
    var clip: Clip
    var damage: seq<Rect>
    var masked: bool

    ghost predicate Valid()
      reads this
    {
      && 0 < width <= INT32_MAX && 0 < height <= INT32_MAX
      && back.Length0 == height && back.Length1 == width
      && front.Length0 == height && front.Length1 == width
      && back != front
      && |damage| <= MAX_REGIONS
      && masked == (damage != [])
      && forall i :: 0 <= i < |damage| ==> OnScreen(damage[i])
    }

    predicate OnScreen(r: Rect) {
      0 <= r.x && 0 < r.width && r.x + r.width <= width && 0 <= r.y && 0 < r.height && r.y + r.height <= height
    }

    /** The mask lets (x, y) through. */
    predicate Open(x: int, y: int)
      reads this
    {
      masked ==> InAny(damage, x, y)
    }

    constructor (width: int, height: int)
      requires 0 < width <= INT32_MAX && 0 < height <= INT32_MAX
      ensures Valid() && this.width == width && this.height == height
      ensures fresh(back) && fresh(front) && clip == NoClip && !masked
    {
      this.width, this.height := width, height;
      back, front := new int[height, width], new int[height, width];
      clip, damage, masked := NoClip, [], false;
    }

    /** The active mask is the union of the given rectangles, cut to the screen. */
    method SetDamageRegions(regions: seq<Rect>) returns (active: bool)
      requires Valid()
      modifies this`damage, this`masked
      ensures Valid() && active == masked
      ensures 0 < |regions| <= MAX_REGIONS ==>
        forall x, y :: 0 <= x < width && 0 <= y < height ==> (InAny(damage, x, y) <==> InAny(regions, x, y))
      ensures !(0 < |regions| <= MAX_REGIONS) ==> !active
    {
      damage, masked := [], false;
      if |regions| == 0 || |regions| > MAX_REGIONS {
        return false;
      }
      var index := 0;
      while index < |regions|
        invariant 0 <= index <= |regions| && |damage| <= index
        invariant forall i :: 0 <= i < |damage| ==> OnScreen(damage[i])
        invariant forall x, y :: 0 <= x < width && 0 <= y < height ==>
          (InAny(damage, x, y) <==> InAny(regions[..index], x, y))
      {
        var clipped := ClipRect(regions[index], width, height);
        ghost var before := damage;
        if clipped.width > 0 {
          damage := damage + [clipped];
        }
        forall x, y | 0 <= x < width && 0 <= y < height
          ensures InAny(damage, x, y) <==> InAny(regions[..index + 1], x, y)
        {
          InAnyExtend(regions[..index], regions[index], x, y);
          InAnyExtend(before, clipped, x, y);
          assert regions[..index + 1] == regions[..index] + [regions[index]];
        }
        index := index + 1;
      }
      assert regions[..index] == regions;
      masked := damage != [];
      active := masked;
    }

    method ResetDamageRegions()
      requires Valid()
      modifies this`damage, this`masked
      ensures Valid() && !masked
    {
      damage, masked := [], false;
    }

    method DamageContains(x: int, y: int) returns (r: bool)
      requires Valid()
      ensures r == Open(x, y)
    {
      if !masked {
        return true;
      }
      var index := 0;
      while index < |damage|
        invariant 0 <= index <= |damage|
        invariant forall i :: 0 <= i < index ==> !Inside(damage[i], x, y)
      {
        if Inside(damage[index], x, y) {
          return true;
        }
        index := index + 1;
      }
      r := false;
    }

    /** Paints [x1, x2) x [y1, y2). */
    method Paint(x1: int, y1: int, x2: int, y2: int, color: int)
      requires Valid() && 0 <= x1 <= x2 <= width && 0 <= y1 <= y2 <= height
      modifies back
      ensures forall y, x :: 0 <= y < height && 0 <= x < width ==>
        back[y, x] == if x1 <= x < x2 && y1 <= y < y2 then color else old(back[y, x])
    {
      var py := y1;
      while py < y2
        invariant y1 <= py <= y2
        invariant forall y, x :: 0 <= y < height && 0 <= x < width ==>
          back[y, x] == if x1 <= x < x2 && y1 <= y < py then color else old(back[y, x])
      {
        var px := x1;
        while px < x2
          invariant x1 <= px <= x2
          invariant forall y, x :: 0 <= y < height && 0 <= x < width ==>
            back[y, x] == if (x1 <= x < x2 && y1 <= y < py) || (y == py && x1 <= x < px) then color else old(back[y, x])
        {
          back[py, px] := color;
          px := px + 1;
        }
        py := py + 1;
      }
    }

    /** A fill under any overlapping mask paints exactly the unmasked part of what it would paint. */
    method Fill(rect: Rect, color: int)
      requires Valid()
      modifies back
      ensures forall y, x :: 0 <= y < height && 0 <= x < width ==>
        back[y, x] == PixelAfter(FillRect(rect, color), clip, Open(x, y), x, y, old(back[y, x]))
    {
      if rect.width <= 0 || rect.height <= 0 {
        return;
      }
      var left, top := Max(rect.x, 0), Max(rect.y, 0);
      var right, bottom := Min(rect.x + rect.width, width), Min(rect.y + rect.height, height);
      if clip.ClipTo? {
        left, top := Max(left, clip.left), Max(top, clip.top);
        right, bottom := Min(right, clip.right), Min(bottom, clip.bottom);
      }
      assert forall x, y :: 0 <= x < width && 0 <= y < height ==>
        (left <= x < right && top <= y < bottom <==> Inside(rect, x, y) && InClip(clip, x, y));
      if left >= right || top >= bottom {
        return;
      }
      if !masked {
        Paint(left, top, right, bottom, color);
        return;
      }
      var index := 0;
      while index < |damage|
        invariant 0 <= index <= |damage|
        invariant forall y, x :: 0 <= y < height && 0 <= x < width ==>
          back[y, x] == if left <= x < right && top <= y < bottom && InAny(damage[..index], x, y)
                        then color else old(back[y, x])
      {
        var d := damage[index];
        var l, t := Max(left, d.x), Max(top, d.y);
        var r, b := Min(right, d.x + d.width), Min(bottom, d.y + d.height);
        assert damage[..index + 1] == damage[..index] + [d];
        forall x, y ensures InAny(damage[..index + 1], x, y) <==> InAny(damage[..index], x, y) || Inside(d, x, y) {
          InAnyExtend(damage[..index], d, x, y);
        }
        if l < r && t < b {
          Paint(l, t, r, b, color);
        }
        index := index + 1;
      }
      assert damage[..index] == damage;
    }

    method Put(x: int, y: int, color: int)
      requires Valid()
      modifies back
      ensures forall v, u :: 0 <= v < height && 0 <= u < width ==>
        back[v, u] == PixelAfter(PutPixel(x, y, color), clip, Open(u, v), u, v, old(back[v, u]))
    {
      if x < 0 || y < 0 || x >= width || y >= height || !InClip(clip, x, y) {
        return;
      }
      var open := DamageContains(x, y);
      if open {
        back[y, x] := color;
      }
    }

    method SetClipRect(rect: Rect)
      requires Valid()
      modifies this`clip
      ensures Valid() && clip == ClipAfter(width, height, SetClip(rect), old(clip))
      ensures forall x, y :: 0 <= x < width && 0 <= y < height ==> (InClip(clip, x, y) <==> Inside(rect, x, y))
    {
      clip := MakeClip(rect, width, height);
    }

    method ClearAll(color: int)
      requires Valid()
      modifies this`clip, back
      ensures Valid() && clip == NoClip
      ensures forall y, x :: 0 <= y < height && 0 <= x < width ==>
        back[y, x] == PixelAfter(Clear(color), old(clip), Open(x, y), x, y, old(back[y, x]))
    {
      clip := NoClip;
      Fill(Rect(0, 0, width, height), color);
    }

    // ----- Scrolling -----

    /** Copies span pixels of row source to row y; the two rows differ. */
    method MoveSpan(y: int, source: int, x0: int, span: int)
      requires Valid() && 0 <= y < source < height && 0 <= x0 && 0 <= span && x0 + span <= width
      modifies back
      ensures forall v, u :: 0 <= v < height && 0 <= u < width ==>
        back[v, u] == if v == y && x0 <= u < x0 + span then old(back[source, u]) else old(back[v, u])
    {
      var x := x0;
      while x < x0 + span
        invariant x0 <= x <= x0 + span
        invariant forall v, u :: 0 <= v < height && 0 <= u < width ==>
          back[v, u] == if v == y && x0 <= u < x then old(back[source, u]) else old(back[v, u])
      {
        back[y, x] := back[source, x];
        x := x + 1;
      }
    }

    /** Row y of the scrolled image inside the mask, everything else as it is. */
    method ScrollRow(y: int, pixels: int, color: int)
      requires Valid() && 0 <= y < height && 0 < pixels
      modifies back
      ensures forall v, u :: 0 <= v < height && 0 <= u < width ==>
        back[v, u] == if v == y && InAny(damage, u, y)
                      then (if y + pixels < height then old(back[y + pixels, u]) else color)
                      else old(back[v, u])
    {
      var index := 0;
      while index < |damage|
        invariant 0 <= index <= |damage|
        invariant forall v, u :: 0 <= v < height && 0 <= u < width ==>
          back[v, u] == if v == y && InAny(damage[..index], u, y)
                        then (if y + pixels < height then old(back[y + pixels, u]) else color)
                        else old(back[v, u])
      {
        var region := damage[index];
        assert damage[..index + 1] == damage[..index] + [region];
        forall u ensures InAny(damage[..index + 1], u, y) <==> InAny(damage[..index], u, y) || Inside(region, u, y) {
          InAnyExtend(damage[..index], region, u, y);
        }
        if region.y <= y < region.y + region.height {
          if y + pixels < height {
            MoveSpan(y, y + pixels, region.x, region.width);
          } else {
            Paint(region.x, y, region.x + region.width, y + 1, color);
          }
        }
        index := index + 1;
      }
      assert damage[..index] == damage;
    }

    /**
     Scrolling in place: every pixel the mask lets through takes the original pixel below it, or the
     fill colour past the bottom edge, and every other pixel keeps its value, for any overlapping mask.
     */
    method ScrollUp(pixels: nat, color: int)
      requires Valid()
      modifies this`clip, back
      ensures Valid() && (pixels > 0 ==> clip == NoClip)
      ensures forall y, x :: 0 <= y < height && 0 <= x < width ==>
        back[y, x] == if pixels == 0 || !Open(x, y) then old(back[y, x])
                      else if y + pixels < height then old(back[y + pixels, x]) else color
    {
      if pixels == 0 {
        return;
      }
      if pixels >= height {
        ClearAll(color);
        return;
      }
      clip := NoClip;
      var y := 0;
      if !masked {
        while y < height - pixels
          modifies back
          invariant 0 <= y <= height - pixels
          invariant forall v, u :: 0 <= v < height && 0 <= u < width ==>
            back[v, u] == if v < y then old(back[v + pixels, u]) else old(back[v, u])
        {
          MoveSpan(y, y + pixels, 0, width);
          y := y + 1;
        }
        Fill(Rect(0, height - pixels, width, pixels), color);
        return;
      }
      while y < height
        modifies back
        invariant 0 <= y <= height
        invariant forall v, u :: 0 <= v < height && 0 <= u < width ==>
          back[v, u] == if v < y && InAny(damage, u, v)
                        then (if v + pixels < height then old(back[v + pixels, u]) else color)
                        else old(back[v, u])
      {
        ScrollRow(y, pixels, color);
        y := y + 1;
      }
    }

    // ----- Presentation -----

    /** Copies the span between the first and the last differing pixel of one row. */
    method PresentRow(y: int, begin: int, end: int)
      requires Valid() && 0 <= y < height && 0 <= begin <= end <= width
      modifies front
      ensures forall v, u :: 0 <= v < height && 0 <= u < width ==>
        front[v, u] == if v == y && begin <= u < end then back[v, u] else old(front[v, u])
    {
      var first := begin;
      while first < end && front[y, first] == back[y, first]
        invariant begin <= first <= end
        invariant forall u :: begin <= u < first ==> front[y, u] == back[y, u]
      {
        first := first + 1;
      }
      if first == end {
        return;
      }
      var last := end;
      while last > first && front[y, last - 1] == back[y, last - 1]
        invariant first <= last <= end
        invariant forall u :: last <= u < end ==> front[y, u] == back[y, u]
      {
        last := last - 1;
      }
      var x := first;
      while x < last
        invariant first <= x <= last
        invariant forall v, u :: 0 <= v < height && 0 <= u < width ==>
          front[v, u] == if v == y && first <= u < x then back[v, u] else old(front[v, u])
      {
        front[y, x] := back[y, x];
        x := x + 1;
      }
    }

    method PresentRegion(region: Rect)
      requires Valid()
      modifies front
      ensures forall v, u :: 0 <= v < height && 0 <= u < width ==>
        front[v, u] == if Inside(region, u, v) then back[v, u] else old(front[v, u])
    {
      if region.width <= 0 || region.height <= 0 {
        return;
      }
      var left, top := Max(region.x, 0), Max(region.y, 0);
      var right, bottom := Min(region.x + region.width, width), Min(region.y + region.height, height);
      if left >= right || top >= bottom {
        return;
      }
      var y := top;
      while y < bottom
        invariant top <= y <= bottom
        invariant forall v, u :: 0 <= v < height && 0 <= u < width ==>
          front[v, u] == if left <= u < right && top <= v < y then back[v, u] else old(front[v, u])
      {
        PresentRow(y, left, right);
        y := y + 1;
      }
    }

    /** One command of a drawing sequence. */
    method Execute(command: Command)
      requires Valid()
      modifies this`clip, back
      ensures Valid() && clip == ClipAfter(width, height, command, old(clip))
      ensures forall y, x :: 0 <= y < height && 0 <= x < width ==>
        back[y, x] == PixelAfter(command, old(clip), Open(x, y), x, y, old(back[y, x]))
    {
      match command {
        case FillRect(rect, color) => Fill(rect, color);
        case PutPixel(x, y, color) => Put(x, y, color);
        case SetClip(rect) => SetClipRect(rect);
        case ResetClip => clip := NoClip;
        case Clear(color) => ClearAll(color);
      }
    }

    /**
     Masked rendering: inside the mask a whole drawing sequence leaves exactly the
     pixels it would leave with no mask, outside it nothing changes.
     */
    method Draw(commands: seq<Command>)
      requires Valid()
      modifies this`clip, back
      ensures Valid()
      ensures forall y, x :: 0 <= y < height && 0 <= x < width && Open(x, y) ==>
        back[y, x] == PixelAfterAll(width, height, commands, old(clip), true, x, y, old(back[y, x]))
      ensures forall y, x :: 0 <= y < height && 0 <= x < width && !Open(x, y) ==> back[y, x] == old(back[y, x])
    {
      hide PixelAfter, ClipAfter;
      var index := 0;
      assert commands[0..] == commands;
      while index < |commands|
        modifies this`clip, back
        invariant 0 <= index <= |commands| && Valid()
        invariant forall y, x :: 0 <= y < height && 0 <= x < width ==>
          PixelAfterAll(width, height, commands[index..], clip, Open(x, y), x, y, back[y, x])
          == PixelAfterAll(width, height, commands, old(clip), Open(x, y), x, y, old(back[y, x]))
      {
        assert commands[index..][1..] == commands[index + 1..] && commands[index..][0] == commands[index];
        Execute(commands[index]);
        index := index + 1;
      }
      forall y, x | 0 <= y < height && 0 <= x < width && !Open(x, y)
        ensures back[y, x] == old(back[y, x])
      {
        MaskedPixelsKept(width, height, commands, old(clip), x, y, old(back[y, x]));
      }
    }

    /** What a frame drawn without any mask leaves at (x, y). */
    ghost function FullFrame(commands: seq<Command>, x: int, y: int): int
      requires Valid() && 0 <= y < height && 0 <= x < width
      reads this, back
    {
      PixelAfterAll(width, height, commands, NoClip, true, x, y, back[y, x])
    }

    /** After presentation the shown image is the drawn one inside the regions and unchanged outside. */
    method EndFrameRegions(regions: seq<Rect>)
      requires Valid()
      modifies this`clip, this`damage, this`masked, front
      ensures Valid() && clip == NoClip && !masked
      ensures forall v, u :: 0 <= v < height && 0 <= u < width ==>
        front[v, u] == if InAny(regions, u, v) then back[v, u] else old(front[v, u])
    {
      var index := 0;
      while index < |regions|
        modifies front
        invariant 0 <= index <= |regions|
        invariant forall v, u :: 0 <= v < height && 0 <= u < width ==>
          front[v, u] == if InAny(regions[..index], u, v) then back[v, u] else old(front[v, u])
      {
        var region := regions[index];
        assert regions[..index + 1] == regions[..index] + [region];
        forall u, v
          ensures InAny(regions[..index + 1], u, v) <==> InAny(regions[..index], u, v) || Inside(region, u, v)
        {
          InAnyExtend(regions[..index], region, u, v);
        }
        PresentRegion(region);
        index := index + 1;
      }
      assert regions[..index] == regions;
      damage, masked, clip := [], false, NoClip;
    }

    method EndFrame()
      requires Valid()
      modifies this`clip, this`damage, this`masked, front
      ensures Valid() && clip == NoClip && !masked
      ensures forall v, u :: 0 <= v < height && 0 <= u < width ==> front[v, u] == back[v, u]
    {
      var whole := [Rect(0, 0, width, height)];
      assert forall v, u :: 0 <= v < height && 0 <= u < width ==> Inside(whole[0], u, v) && InAny(whole, u, v);
      EndFrameRegions(whole);
    }

    /**
     One compositor frame. If some region is on the screen, only the regions are
     drawn and shown; otherwise the whole screen is. Either way the screen ends up
     as after a full frame, provided the full frame would show nothing new outside
     the regions.
     */
    method RenderFrame(regions: seq<Rect>, commands: seq<Command>) returns (partial: bool)
      requires Valid()
      modifies this`clip, this`damage, this`masked, back, front
      ensures Valid() && clip == NoClip && !masked
      ensures forall v, u :: 0 <= v < height && 0 <= u < width && (partial ==> InAny(regions, u, v)) ==>
        front[v, u] == back[v, u] == old(FullFrame(commands, u, v))
      ensures partial ==> forall v, u :: 0 <= v < height && 0 <= u < width && !InAny(regions, u, v) ==>
        front[v, u] == old(front[v, u]) && back[v, u] == old(back[v, u])
      ensures (forall v, u :: 0 <= v < height && 0 <= u < width && !InAny(regions, u, v) ==>
                 old(FullFrame(commands, u, v)) == old(front[v, u])) ==>
        forall v, u :: 0 <= v < height && 0 <= u < width ==> front[v, u] == old(FullFrame(commands, u, v))
    {
      ResetDamageRegions();
      clip := NoClip;
      partial := false;
      if |regions| != 0 {
        partial := SetDamageRegions(regions);
      }
      Draw(commands);
      ResetDamageRegions();
      if partial {
        EndFrameRegions(regions);
      } else {
        EndFrame();
      }
    }
  }

  lemma InAnyExtend(regions: seq<Rect>, r: Rect, x: int, y: int)
    ensures InAny(regions + [r], x, y) <==> InAny(regions, x, y) || Inside(r, x, y)
  {
    var all := regions + [r];
    if InAny(regions, x, y) {
      var i :| 0 <= i < |regions| && Inside(regions[i], x, y);
      assert Inside(all[i], x, y);
    }
    if Inside(r, x, y) {
      assert Inside(all[|regions|], x, y);
    }
  }
}
