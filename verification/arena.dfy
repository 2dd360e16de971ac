/**
 The mesh as the refinement driver sees it, and the collaborators it calls.

 The mesh's element storage becomes an arena indexed by position, each slot
 carrying the `used` and `active` flags and the element's vertices. Splitting,
 the refinability test and the surface height are supplied by the caller as
 functions, since their code is not part of this model.
 */
module Arena {
  import opened Geometry

  datatype Element = Element(used: bool, active: bool, vertices: seq<Vertex>)

  type Mesh = seq<Element>

  /** `H3D_H3D_REFT_HEX_XY` (split across the footprint) and `H3D_REFT_HEX_Z` (split in depth). */
  datatype Axis = XY | Z

  /** An element both passes look at: present, `used` and `active`. */
  predicate Live(m: Mesh, idx: nat)
  {
    idx < |m| && m[idx].used && m[idx].active
  }

  /**
   The external collaborators: `r1.interpolate(x, y)`,
   `mesh.can_refine_element(idx, axis)` and `mesh.refine_element(idx, axis)`.
   */
  datatype Env = Env(
    surface: (real, real) -> real,
    canRefine: (Mesh, nat, Axis) -> bool,
    refine: (Mesh, nat, Axis) -> Mesh)
}
