/** The slice of the WebGL context the vector skin relies on: the texture
    size limit, texture creation and texture deletion. Creation and deletion
    are recorded in logs so that the skin's contracts can speak of them. */
module WebGL {
  import opened Wrappers

  /** Texture filtering modes (`gl.LINEAR`, `gl.NEAREST`). */
  datatype Filter = Linear | Nearest

  /** A texture handle: its identity, the size of the canvas uploaded into
      it and its filtering mode. */
  datatype Texture = Texture(id: nat, width: nat, height: nat, filter: Filter)

  class GlContext {
    /** `getParameter(MAX_TEXTURE_SIZE)`. */
    const maxTextureSize: nat
    /** Every texture created so far, in order; a texture's id is its index. */
    var created: seq<Texture>
    /** Every `deleteTexture` argument so far, in order (null included). */
    var deleted: seq<Option<Texture>>

    /** Each created texture's id is its position in the creation log. */
    ghost predicate Valid()
      reads this
    {
      forall i | 0 <= i < |created| :: created[i].id == i
    }

    constructor (maxTextureSize: nat)
      ensures this.maxTextureSize == maxTextureSize
      ensures created == [] && deleted == []
      ensures Valid()
    {
      this.maxTextureSize := maxTextureSize;
      created := [];
      deleted := [];
    }

    /** Uploads a canvas of the given size into a new texture. The handle is
        fresh: its id differs from that of every texture made before. */
    method MakeTexture(width: nat, height: nat, filter: Filter) returns (t: Texture)
      requires Valid()
      modifies this`created
      ensures Valid()
      ensures t == Texture(|old(created)|, width, height, filter)
      ensures forall u <- old(created) :: u.id != t.id
      ensures created == old(created) + [t]
    {
      t := Texture(|created|, width, height, filter);
      created := created + [t];
    }

    /** `deleteTexture(texture)`; a null argument is accepted and ignored by
        WebGL, and is logged like any other. */
    method DeleteTexture(texture: Option<Texture>)
      modifies this`deleted
      ensures deleted == old(deleted) + [texture]
    {
      deleted := deleted + [texture];
    }
  }
}
