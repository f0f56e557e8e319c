/** A skin that shows a vector (SVG) image through WebGL. WebGL cannot draw
    vectors, so the skin rasterises the image onto its own canvas at one
    power-of-two size per mip level, uploads each raster as a texture, and
    caches the textures by level. A separate one-slot cache keeps the pixels of
    the most recent raster for CPU-side reads. */
module Skins {
  import opened Wrappers
  import opened Powers
  import opened MipLevels
  import opened WebGL

  /** The HTML image element being skinned: its natural size and whether it
      has finished loading. */
  class Image {
    const naturalWidth: nat
    const naturalHeight: nat
    var complete: bool

    constructor (naturalWidth: nat, naturalHeight: nat, complete: bool)
      ensures this.naturalWidth == naturalWidth && this.naturalHeight == naturalHeight
      ensures this.complete == complete
    {
      this.naturalWidth := naturalWidth;
      this.naturalHeight := naturalHeight;
      this.complete := complete;
    }
  }

  /** One `drawImage` of the source image onto the canvas, at a mip level and
      a pixel size. */
  datatype Draw = Draw(mipLevel: nat, width: nat, height: nat)

  /** Pixels read back from the canvas: their size and the index, in the
      skin's draw history, of the draw they show. */
  datatype ImageData = ImageData(width: nat, height: nat, drawIndex: nat)

  /** The size of a freshly created HTML canvas. */
  const DefaultCanvasWidth: nat := 300
  const DefaultCanvasHeight: nat := 150

  predicate Distinct(s: seq<nat>) {
    forall i, j :: 0 <= i < j < |s| ==> s[i] != s[j]
  }

  /** No two mip levels hold the same texture. */
  ghost predicate TexturesUnshared(m: map<nat, Option<Texture>>) {
    forall a, b :: a in m && b in m && a != b && m[a].Some? ==> m[a] != m[b]
  }

  /** The entries of `m` at the keys `ks`, in the order of `ks`. */
  function ValuesAt(m: map<nat, Option<Texture>>, ks: seq<nat>): (vs: seq<Option<Texture>>)
    requires forall k <- ks :: k in m
    ensures |vs| == |ks|
  {
    if ks == [] then [] else ValuesAt(m, ks[..|ks| - 1]) + [m[ks[|ks| - 1]]]
  }

  /** Walking a cache whose textures are unshared along distinct keys meets
      each stored texture once if its key is walked, and never otherwise. */
  lemma {:induction false} ValuesAtMeetsTextureOnce(m: map<nat, Option<Texture>>, ks: seq<nat>, key: nat)
    requires forall k <- ks :: k in m
    requires Distinct(ks)
    requires TexturesUnshared(m)
    requires key in m && m[key].Some?
    ensures multiset(ValuesAt(m, ks))[m[key]] == if key in ks then 1 else 0
  {
    if ks != [] {
      var init, last := ks[..|ks| - 1], ks[|ks| - 1];
      assert ks == init + [last];
      ValuesAtMeetsTextureOnce(m, init, key);
      assert multiset(ValuesAt(m, ks)) == multiset(ValuesAt(m, init)) + multiset{m[last]};
      if key == last {
        assert key !in init;
      } else {
        assert m[last] != m[key];
      }
    }
  }

  class VectorSkin {
    const gl: GlContext
    const image: Image
    /** `_maxTextureSize`, read from the GL context once, at construction. */
    const maxTextureSize: nat
    /** The size of the skin's own canvas. */
    var canvasWidth: nat
    var canvasHeight: nat
    /** Every draw onto the canvas so far, in order. */
    var draws: seq<Draw>
    /** `_imageData` and `_imageDataMipLevel`: the one-slot pixel cache. */
    var imageDataMipLevel: nat
    var imageData: Option<ImageData>
    /** `_mipmaps`: a texture per mip level, None for a zero-area level. */
    var mipmaps: map<nat, Option<Texture>>
    /** The levels this skin has uploaded a texture for, in order. */
    ghost var uploadLevels: seq<nat>

    /** The canvas width `_drawSvgToCanvas` computes for `mipLevel`. */
    function RasterWidth(mipLevel: nat): (w: nat)
      ensures w <= maxTextureSize
      ensures w == 0 <==>
                maxTextureSize == 0 || image.naturalWidth as real * Pow2(mipLevel - MipmapOffset) < 0.5
    {
      RasterDimension(image.naturalWidth, mipLevel, maxTextureSize)
    }

    /** The canvas height `_drawSvgToCanvas` computes for `mipLevel`. */
    function RasterHeight(mipLevel: nat): (h: nat)
      ensures h <= maxTextureSize
      ensures h == 0 <==>
                maxTextureSize == 0 || image.naturalHeight as real * Pow2(mipLevel - MipmapOffset) < 0.5
    {
      RasterDimension(image.naturalHeight, mipLevel, maxTextureSize)
    }

    /** The raster for this level has zero area: there is nothing to draw.
        That happens exactly when the texture limit is 0 or either scaled
        side is below one half. */
    predicate Degenerate(mipLevel: nat): (d: bool)
      ensures d <==>
                || maxTextureSize == 0
                || image.naturalWidth as real * Pow2(mipLevel - MipmapOffset) < 0.5
                || image.naturalHeight as real * Pow2(mipLevel - MipmapOffset) < 0.5
    {
      RasterWidth(mipLevel) == 0 || RasterHeight(mipLevel) == 0
    }

    ghost predicate DrawnAtRasterSize(d: Draw) {
      !Degenerate(d.mipLevel) && d.width == RasterWidth(d.mipLevel) && d.height == RasterHeight(d.mipLevel)
    }

    /** `t` is a texture made (as `created[t.id]`) from the canvas drawn at
        `mipLevel`. */
    ghost predicate IsMipmapTexture(mipLevel: nat, t: Texture, created: seq<Texture>) {
      && t.width == RasterWidth(mipLevel) && t.height == RasterHeight(mipLevel)
      && t.filter == Linear
      && t.id < |created| && created[t.id] == t
    }

    /** The texture cache `m`, given the levels `ups` uploaded so far and the
        textures `created` by the GL context. */
    ghost predicate CacheValid(m: map<nat, Option<Texture>>, ups: seq<nat>, created: seq<Texture>) {
      // a cached entry is None exactly for a zero-area level
      && (forall l :: l in m ==> (m[l].None? <==> Degenerate(l)))
      && (forall l :: l in m && m[l].Some? ==> IsMipmapTexture(l, m[l].value, created))
      && TexturesUnshared(m)
      // each level is uploaded at most once, and uploaded levels stay cached
      && Distinct(ups)
      && (forall l :: (l in m && m[l].Some?) <==> l in ups)
    }

    ghost predicate Valid()
      reads this, gl
    {
      // the canvas has the size of the latest draw, or its initial size
      && (draws == [] ==> canvasWidth == DefaultCanvasWidth && canvasHeight == DefaultCanvasHeight)
      && (draws != [] ==> canvasWidth == draws[|draws| - 1].width && canvasHeight == draws[|draws| - 1].height)
      && (forall i :: 0 <= i < |draws| ==> DrawnAtRasterSize(draws[i]))
      // the pixel slot holds a read-back of a draw at its tagged level
      && (imageData.Some? ==>
            && imageData.value.drawIndex < |draws|
            && draws[imageData.value.drawIndex].mipLevel == imageDataMipLevel
            && imageData.value.width == RasterWidth(imageDataMipLevel)
            && imageData.value.height == RasterHeight(imageDataMipLevel))
      && gl.Valid()
      && CacheValid(mipmaps, uploadLevels, gl.created)
    }

    /** Filling an absent level with the outcome of `_createMipmap` keeps
        the cache valid. */
    lemma CacheInsert(m: map<nat, Option<Texture>>, ups: seq<nat>, created: seq<Texture>,
                      level: nat, mipmap: Option<Texture>, created': seq<Texture>)
      requires CacheValid(m, ups, created) && level !in m
      requires mipmap.None? <==> Degenerate(level)
      requires mipmap.None? ==> created' == created
      requires mipmap.Some? ==>
                 && mipmap.value == Texture(|created|, RasterWidth(level), RasterHeight(level), Linear)
                 && created' == created + [mipmap.value]
      ensures CacheValid(m[level := mipmap], if mipmap.Some? then ups + [level] else ups, created')
    {
    }

    constructor (gl: GlContext, image: Image)
      requires gl.Valid()
      ensures this.gl == gl && this.image == image
      ensures maxTextureSize == gl.maxTextureSize
      ensures canvasWidth == DefaultCanvasWidth && canvasHeight == DefaultCanvasHeight
      ensures draws == []
      ensures imageDataMipLevel == 0 && imageData == None
      ensures mipmaps == map[] && uploadLevels == []
      ensures Valid()
    {
      this.gl := gl;
      this.image := image;
      canvasWidth, canvasHeight := DefaultCanvasWidth, DefaultCanvasHeight;
      draws := [];
      imageDataMipLevel := 0;
      imageData := None;
      maxTextureSize := gl.maxTextureSize;
      mipmaps := map[];
      uploadLevels := [];
    }

    /** `_doDraw`: draws the image onto the canvas at the given size. */
    method DoDraw(mipLevel: nat, width: nat, height: nat)
      modifies this`draws
      ensures draws == old(draws) + [Draw(mipLevel, width, height)]
    {
      draws := draws + [Draw(mipLevel, width, height)];
    }

    /** `_drawSvgToCanvas`: returns false (null) without touching the canvas
        for a zero-area level; otherwise resizes the canvas to the level's
        raster size and draws the image once at that size. */
    method DrawSvgToCanvas(mipLevel: nat) returns (drawn: bool)
      requires Valid()
      modifies this`canvasWidth, this`canvasHeight, this`draws
      ensures Valid()
      ensures drawn <==> !Degenerate(mipLevel)
      ensures !drawn ==>
                canvasWidth == old(canvasWidth) && canvasHeight == old(canvasHeight) && draws == old(draws)
      ensures drawn ==>
                && canvasWidth == RasterWidth(mipLevel) && canvasHeight == RasterHeight(mipLevel)
                && draws == old(draws) + [Draw(mipLevel, canvasWidth, canvasHeight)]
    {
      var w := RasterWidth(mipLevel);
      var h := RasterHeight(mipLevel);

      if w == 0 || h == 0 {
        return false;
      }

      canvasWidth := w;
      canvasHeight := h;

      DoDraw(mipLevel, w, h);

      return true;
    }

    /** `_createMipmap`: None for a zero-area level; otherwise the canvas is
        drawn at the level's size and uploaded into a fresh, linearly
        filtered texture. */
    method CreateMipmap(mipLevel: nat) returns (mipmap: Option<Texture>)
      requires Valid()
      modifies this`canvasWidth, this`canvasHeight, this`draws, gl`created
      ensures Valid()
      ensures mipmap.None? <==> Degenerate(mipLevel)
      ensures mipmap.None? ==>
                && canvasWidth == old(canvasWidth) && canvasHeight == old(canvasHeight)
                && draws == old(draws) && gl.created == old(gl.created)
      ensures mipmap.Some? ==>
                && mipmap.value == Texture(|old(gl.created)|, RasterWidth(mipLevel), RasterHeight(mipLevel), Linear)
                && (forall u <- old(gl.created) :: u.id != mipmap.value.id)
                && gl.created == old(gl.created) + [mipmap.value]
                && canvasWidth == RasterWidth(mipLevel) && canvasHeight == RasterHeight(mipLevel)
                && draws == old(draws) + [Draw(mipLevel, canvasWidth, canvasHeight)]
    {
      var drawn := DrawSvgToCanvas(mipLevel);

      if !drawn {
        return None;
      }

      var texture := gl.MakeTexture(canvasWidth, canvasHeight, Linear);
      return Some(texture);
    }

    /** `getTexture`: the texture for the mip level of `scale`, built and
        cached on the first request for that level and served from the cache
        afterwards; None while the image is loading (nothing is cached then)
        and for a zero-area level. */
    method GetTexture(scale: real) returns (texture: Option<Texture>)
      requires Valid()
      requires scale >= 0.0
      modifies this, gl`created
      ensures Valid()
      ensures imageData == old(imageData) && imageDataMipLevel == old(imageDataMipLevel)
      ensures !image.complete ==>
                && texture == None
                && mipmaps == old(mipmaps) && uploadLevels == old(uploadLevels)
                && canvasWidth == old(canvasWidth) && canvasHeight == old(canvasHeight)
                && draws == old(draws) && gl.created == old(gl.created)
      ensures image.complete ==>
                var level := MipLevelForScale(scale);
                && level in mipmaps && texture == mipmaps[level]
                && (texture.None? <==> Degenerate(level))
                && (texture.Some? ==> IsMipmapTexture(level, texture.value, gl.created))
      // a hit: the stored value is returned and nothing is drawn or uploaded
      ensures image.complete && MipLevelForScale(scale) in old(mipmaps) ==>
                && texture == old(mipmaps)[MipLevelForScale(scale)]
                && mipmaps == old(mipmaps) && uploadLevels == old(uploadLevels)
                && canvasWidth == old(canvasWidth) && canvasHeight == old(canvasHeight)
                && draws == old(draws) && gl.created == old(gl.created)
      // a miss: exactly the one level is added, drawn and uploaded at most once
      ensures image.complete && MipLevelForScale(scale) !in old(mipmaps) ==>
                var level := MipLevelForScale(scale);
                && mipmaps == old(mipmaps)[level := texture]
                && (texture.None? ==>
                      && uploadLevels == old(uploadLevels)
                      && canvasWidth == old(canvasWidth) && canvasHeight == old(canvasHeight)
                      && draws == old(draws) && gl.created == old(gl.created))
                && (texture.Some? ==>
                      && texture.value.id == |old(gl.created)|
                      && (forall u <- old(gl.created) :: u.id != texture.value.id)
                      && gl.created == old(gl.created) + [texture.value]
                      && uploadLevels == old(uploadLevels) + [level]
                      && draws == old(draws) + [Draw(level, RasterWidth(level), RasterHeight(level))])
    {
      if !image.complete {
        return None;
      }

      var mipLevel := MipLevelForScale(scale);
      if mipLevel !in mipmaps {
        ghost var created := gl.created;
        var mipmap := CreateMipmap(mipLevel);
        CacheInsert(mipmaps, uploadLevels, created, mipLevel, mipmap, gl.created);
        mipmaps := mipmaps[mipLevel := mipmap];
        if mipmap.Some? {
          uploadLevels := uploadLevels + [mipLevel];
        }
      }

      if mipLevel in mipmaps {
        texture := mipmaps[mipLevel];
      } else {
        // The source rebuilds the mipmap here; the key was inserted above,
        // so this branch is never taken.
        assert false;
      }
    }

    /** `getImageData`: the pixels of the raster for the mip level of
        `scale`. The slot is reused when it already holds that level; any other
        level is drawn once and replaces the slot. None while the image is
        loading and for a zero-area level; in both cases the slot is kept. */
    method GetImageData(scale: real) returns (data: Option<ImageData>)
      requires Valid()
      requires scale >= 0.0
      modifies this`canvasWidth, this`canvasHeight, this`draws, this`imageData, this`imageDataMipLevel
      ensures Valid()
      ensures mipmaps == old(mipmaps)
      ensures !image.complete ==>
                && data == None
                && imageData == old(imageData) && imageDataMipLevel == old(imageDataMipLevel)
                && canvasWidth == old(canvasWidth) && canvasHeight == old(canvasHeight)
                && draws == old(draws)
      // a hit: the very same buffer, with no redraw
      ensures image.complete && old(imageData).Some? && old(imageDataMipLevel) == MipLevelForScale(scale) ==>
                && data == old(imageData)
                && imageData == old(imageData) && imageDataMipLevel == old(imageDataMipLevel)
                && canvasWidth == old(canvasWidth) && canvasHeight == old(canvasHeight)
                && draws == old(draws)
      // a miss at a zero-area level: None, and the slot keeps its old buffer and tag
      ensures image.complete && !(old(imageData).Some? && old(imageDataMipLevel) == MipLevelForScale(scale))
              && Degenerate(MipLevelForScale(scale)) ==>
                && data == None
                && imageData == old(imageData) && imageDataMipLevel == old(imageDataMipLevel)
                && canvasWidth == old(canvasWidth) && canvasHeight == old(canvasHeight)
                && draws == old(draws)
      // any other miss: one draw, whose read-back fills and tags the slot
      ensures image.complete && !(old(imageData).Some? && old(imageDataMipLevel) == MipLevelForScale(scale))
              && !Degenerate(MipLevelForScale(scale)) ==>
                var level := MipLevelForScale(scale);
                && data == Some(ImageData(RasterWidth(level), RasterHeight(level), |old(draws)|))
                && imageData == data && imageDataMipLevel == level
                && canvasWidth == RasterWidth(level) && canvasHeight == RasterHeight(level)
                && draws == old(draws) + [Draw(level, RasterWidth(level), RasterHeight(level))]
    {
      if !image.complete {
        return None;
      }

      var mipLevel := MipLevelForScale(scale);
      if imageData.None? || imageDataMipLevel != mipLevel {
        var drawn := DrawSvgToCanvas(mipLevel);
        if !drawn {
          return None;
        }

        imageData := Some(ImageData(canvasWidth, canvasHeight, |draws| - 1));
        imageDataMipLevel := mipLevel;
      }

      data := imageData;
    }

    /** `destroy`: passes every cached entry, None included, to
        `deleteTexture`, each exactly once, in some order of the levels. */
    method Destroy() returns (ghost order: seq<nat>)
      requires Valid()
      modifies gl`deleted
      ensures Distinct(order)
      ensures forall l :: l in order <==> l in mipmaps
      ensures gl.deleted == old(gl.deleted) + ValuesAt(mipmaps, order)
      ensures forall l :: l in mipmaps && mipmaps[l].Some? ==>
                multiset(gl.deleted[|old(gl.deleted)|..])[mipmaps[l]] == 1
    {
      var remaining := mipmaps.Keys;
      order := [];
      while remaining != {}
        invariant remaining <= mipmaps.Keys
        invariant Distinct(order)
        invariant forall l :: l in order <==> l in mipmaps && l !in remaining
        invariant gl.deleted == old(gl.deleted) + ValuesAt(mipmaps, order)
        decreases remaining
      {
        var l :| l in remaining;
        gl.DeleteTexture(mipmaps[l]);
        order := order + [l];
        remaining := remaining - {l};
      }

      assert gl.deleted[|old(gl.deleted)|..] == ValuesAt(mipmaps, order);
      forall l | l in mipmaps && mipmaps[l].Some?
        ensures multiset(ValuesAt(mipmaps, order))[mipmaps[l]] == 1
      {
        ValuesAtMeetsTextureOnce(mipmaps, order, l);
      }
    }
  }

  /** Two texture requests whose scales share a mip level get the same
      result, and together draw and upload at most once. */
  method RepeatedTextureRequest(skin: VectorSkin, s1: real, s2: real)
    returns (t1: Option<Texture>, t2: Option<Texture>)
    requires skin.Valid() && skin.image.complete
    requires s1 >= 0.0 && s2 >= 0.0
    requires MipLevelForScale(s1) == MipLevelForScale(s2)
    modifies skin, skin.gl`created
    ensures skin.Valid()
    ensures t1 == t2
    ensures |skin.gl.created| <= |old(skin.gl.created)| + 1
    ensures |skin.draws| <= |old(skin.draws)| + 1
  {
    t1 := skin.GetTexture(s1);
    t2 := skin.GetTexture(s2);
  }

  /** Two pixel reads whose scales share a mip level return the same buffer
      and together draw at most once. */
  method RepeatedImageDataRequest(skin: VectorSkin, s1: real, s2: real)
    returns (d1: Option<ImageData>, d2: Option<ImageData>)
    requires skin.Valid() && skin.image.complete
    requires s1 >= 0.0 && s2 >= 0.0
    requires MipLevelForScale(s1) == MipLevelForScale(s2)
    modifies skin
    ensures skin.Valid()
    ensures d1 == d2
    ensures d1.Some? ==>
              d1.value.width == skin.RasterWidth(MipLevelForScale(s1))
              && d1.value.height == skin.RasterHeight(MipLevelForScale(s1))
    ensures |skin.draws| <= |old(skin.draws)| + 1
  {
    d1 := skin.GetImageData(s1);
    d2 := skin.GetImageData(s2);
  }

  /** A request made while the image is loading caches nothing, so the same
      request after loading builds the level's entry. */
  method TextureAfterLoading(skin: VectorSkin, scale: real)
    returns (before: Option<Texture>, after: Option<Texture>)
    requires skin.Valid() && !skin.image.complete
    requires scale >= 0.0
    requires MipLevelForScale(scale) !in skin.mipmaps
    modifies skin, skin.gl`created, skin.image`complete
    ensures skin.Valid()
    ensures before == None
    ensures skin.mipmaps == old(skin.mipmaps)[MipLevelForScale(scale) := after]
    ensures after.None? <==> skin.Degenerate(MipLevelForScale(scale))
  {
    before := skin.GetTexture(scale);
    skin.image.complete := true;
    after := skin.GetTexture(scale);
  }
}
