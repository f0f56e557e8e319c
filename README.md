# VectorSkin: mip-level selection and texture caching for vector images

This project is a Dafny model of `VectorSkin`, the renderer component of the
Leopard engine that shows an SVG image through WebGL. WebGL cannot draw
vectors, so the skin works in three steps:

- it maps the continuous draw scale to a discrete mip level,
  `max(ceil(log2(scale)) + 4, 0)`;
- it rasterises the image onto its own canvas at `2^(level - 4)` times the
  natural size, clamped per axis to the GL context's maximum texture size and
  rounded;
- it uploads that canvas as a linearly filtered texture.

Textures are cached per level in `_mipmaps`. A cached `null` marks a level
whose raster has zero area. A separate one-slot cache, `_imageData` tagged
with `_imageDataMipLevel`, keeps the pixels of the latest raster for CPU-side
reads. `destroy()` passes every cached entry to `deleteTexture`.

Layout:

- `powers.dfy` (module `Powers`): exact powers of two and base-2 logarithms.
  These stand in for `2 ** n`, `Math.log2` and `Math.ceil`.
- `mip_levels.dfy` (module `MipLevels`): `MIPMAP_OFFSET`, `mipLevelForScale`,
  `Math.round`, and the raster size of a level. Each is a function, and the
  lemmas about them are here.
- `webgl.dfy` (module `WebGL`): the GL context as a class. It has a fixed
  `maxTextureSize`, a log of created textures and a log of `deleteTexture`
  arguments. Its invariant says a texture's id is its index in the creation
  log, so every new handle's id differs from that of every earlier texture.
- `vector_skin.dfy` (module `Skins`): the image element, and the
  `VectorSkin` class with the source's mutable fields. The canvas size, the
  canvas draw history, the pixel slot and the texture map are fields its
  methods update. The object invariant `Valid()` ties them together:
  - the canvas has the size of the last draw;
  - every draw has its level's raster size;
  - the slot holds a read-back of a draw at its tagged level;
  - a cached entry is None exactly when the level is zero-area;
  - every cached texture has its level's size and linear filtering;
  - no texture is cached under two levels;
  - each level is uploaded at most once.

  Three client methods at the end of the file chain calls and state what a
  caller can rely on.

Notes on behaviour, following the code:

- Buckets are the half-open ranges `(2^(k-1), 2^k]`. The value 1.0 lies in
  (1/2, 1] and 1.9 lies in (1, 2], so they get levels 4 and 5. The comment at
  src/renderer/VectorSkin.ts:125, which pairs the 2x texture with scales from
  1x to 2x, means the half-open range (1, 2]. `MipLevelExamples` states these values.
- `destroy()` passes the `null` sentinels to `deleteTexture` as well; WebGL
  ignores them. It does not skip them, and it does not clear the map.
- A scale of 0 gives level 0: `Math.log2(0)` is `-Infinity`, and the `max`
  turns the sum into 0. The model therefore accepts every scale `>= 0`.
- The `else` branch of `getTexture` (lines 137-141) cannot run, because the key
  was inserted just before it. The model asserts that branch unreachable.

## Model

| member | source | states |
|---|---|---|
| `Powers.CeilLog2` | src/renderer/VectorSkin.ts:39 | `Math.ceil(Math.log2(s))` for `s > 0` is the integer k with 2^(k-1) < s <= 2^k |
| `Powers.CeilLog2Unique` | src/renderer/VectorSkin.ts:39 | only one integer k has 2^(k-1) < s <= 2^k, so the ceiling log is determined by that bracket |
| `MipLevels.MipmapOffsetScales` | src/renderer/VectorSkin.ts:5-6 | with `MIPMAP_OFFSET` = 4, level 0 rasterises at 1/16 of the natural size and level 4 at the natural size |
| `MipLevels.MipLevelForScale` | src/renderer/VectorSkin.ts:38-40 | the level is never negative; its raster scale 2^(level-4) is at least the requested scale; for level > 0 the scale exceeds 2^(level-5), so a texel is 0.5x to 1x a drawn pixel |
| `MipLevels.MipLevelIsLeast` | src/renderer/VectorSkin.ts:38-40 | no level below the chosen one has a raster scale covering the requested scale |
| `MipLevels.MipLevelMonotonic` | src/renderer/VectorSkin.ts:38-40 | a larger scale never selects a smaller level |
| `MipLevels.MipLevelOfBucket` | src/renderer/VectorSkin.ts:38-40 | every scale in (2^(k-1), 2^k] maps to max(k + 4, 0) |
| `MipLevels.MipLevelOfSmallScale` | src/renderer/VectorSkin.ts:5-6 | every scale up to 1/2^4 = 1/16 maps to level 0, the smallest mip |
| `MipLevels.MipLevelExamples` | src/renderer/VectorSkin.ts:121-128 | 1.0 maps to 4; 1.5 and 1.9 both map to 5; 2.1 maps to 6; 0.07 maps to 1 |
| `MipLevels.Round` | src/renderer/VectorSkin.ts:70-71 | `Math.round` of a non-negative value is the nearest integer, and a half rounds up |
| `MipLevels.RasterDimension` | src/renderer/VectorSkin.ts:64-71 | a raster side never exceeds the maximum texture size; it equals the maximum once the scaled size reaches it; otherwise it is the scaled size rounded; it is 0 exactly when the maximum is 0 or the scaled size is below 1/2 |
| `MipLevels.RasterDimensionMonotonic` | src/renderer/VectorSkin.ts:64-71 | a higher level never yields a smaller raster side |
| `Skins.VectorSkin.RasterWidth` | src/renderer/VectorSkin.ts:64-71 | this image's raster width at a level never exceeds the texture limit, and is 0 exactly when the limit is 0 or the scaled natural width is below 1/2 |
| `Skins.VectorSkin.RasterHeight` | src/renderer/VectorSkin.ts:64-71 | the same for the raster height |
| `Skins.VectorSkin.Degenerate` | src/renderer/VectorSkin.ts:73-76 | a level is zero-area (its computed width or height is 0) exactly when the texture limit is 0 or either scaled natural side is below 1/2 |
| `WebGL.GlContext.MakeTexture` | src/renderer/VectorSkin.ts:115 | the upload returns a new handle with the canvas size and filter; its id is the creation log's length and differs from the id of every earlier texture; it is appended to the creation log, and ids stay equal to log positions |
| `WebGL.GlContext.DeleteTexture` | src/renderer/VectorSkin.ts:146 | each call appends its argument, null included, to the deletion log |
| `Skins.VectorSkin.constructor` | src/renderer/VectorSkin.ts:17-36 | starts with an empty texture map, an empty slot tagged 0, a default 300x150 canvas and `maxTextureSize` read from the GL context; the invariant holds |
| `Skins.VectorSkin.DoDraw` | src/renderer/VectorSkin.ts:90-98 | records exactly one draw at the given level and size |
| `Skins.VectorSkin.DrawSvgToCanvas` | src/renderer/VectorSkin.ts:60-88 | for a zero-area level it returns null and leaves the canvas size and draw history alone; otherwise the canvas becomes exactly the raster size and one draw at that size is recorded |
| `Skins.VectorSkin.CreateMipmap` | src/renderer/VectorSkin.ts:102-116 | None exactly for a zero-area level, and then nothing is drawn or uploaded; otherwise one draw and one upload of a fresh, linearly filtered texture of the raster size |
| `Skins.VectorSkin.CacheInsert` | src/renderer/VectorSkin.ts:129-131 | storing the result of a miss under an absent level keeps the cache invariant: the sentinel only for zero-area levels, no handle under two levels, each level uploaded once |
| `Skins.VectorSkin.GetTexture` | src/renderer/VectorSkin.ts:118-142 | not ready: null and nothing changes. Ready: afterwards the level is cached and the result is its entry; a hit returns the stored value with no draw or upload and no other key changed; a miss adds exactly that key, with at most one draw and one upload; null exactly for a zero-area level |
| `Skins.VectorSkin.GetImageData` | src/renderer/VectorSkin.ts:42-58 | not ready: null, slot unchanged. Same tagged level: the same buffer, no redraw. Zero-area level: null, old buffer and tag kept. Otherwise: one draw, and the slot holds a read-back of the raster size tagged with the new level. Never touches the texture map |
| `Skins.VectorSkin.Destroy` | src/renderer/VectorSkin.ts:144-148 | visits each cached level exactly once. Appends each entry, null sentinels included, to the deletion log. Each cached texture is deleted exactly once. Creates nothing |
| `Skins.ValuesAtMeetsTextureOnce` | src/renderer/VectorSkin.ts:145-147 | walking distinct keys of a cache with no shared handles meets each stored texture exactly once, if its key is walked |
| `Skins.RepeatedTextureRequest` | src/renderer/VectorSkin.ts:128-136 | two requests at scales of the same level return the same result and together draw and upload at most once |
| `Skins.RepeatedImageDataRequest` | src/renderer/VectorSkin.ts:46-57 | two pixel reads at scales of the same level return the same buffer, of that level's raster size, and together draw at most once |
| `Skins.TextureAfterLoading` | src/renderer/VectorSkin.ts:119 | a request while loading returns null and caches nothing, so the same request after loading fills that level |

## Left out

- src/index.ts only re-exports modules. It has no behaviour to model.
- Canvas creation and `getContext("2d")` are not modelled. The throw at lines
  21-23 when no context is available is left out too: construction is
  assumed to succeed.
- `_setSizeFromImage` (line 33) and `_makeTexture` live in the base class
  `Skin`, which is not part of this model. The upload is abstracted as
  `GlContext.MakeTexture`, which returns a fresh handle of the canvas size.
  `getParameter(MAX_TEXTURE_SIZE)` is abstracted as a fixed natural number.
- Pixel contents are opaque. An `ImageData` is its size plus the index of the
  draw it reads back. A texture's content is not modelled.
- The `sprite` parameter is left out; this class's `_doDraw` does not use it.
  Subclass overrides of `_doDraw` are left out too.
- Floating point is not modelled. Scales and scaled sizes are exact reals:
  `Math.log2`/`Math.ceil` is an exact ceiling log2, and `Math.round` is
  floor(x + 1/2). Negative and NaN scales are outside the model; the source
  computes a NaN level for them. A scale of +Infinity is outside the model
  too; the source gives it the level Infinity, draws a texture clamped to the
  maximum size on both axes (for a non-zero natural size) and caches it under
  the key Infinity.
- The image's natural size is taken as fixed. The source reads it only after
  the `complete` check.
- `Skins.VectorSkin.Destroy`: it visits the levels in an unspecified order,
  not in the Map's insertion order.
- Calls after `destroy()` are not ruled out, matching the source.
