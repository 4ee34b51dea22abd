/** GLenum values of the types of vertices, indices and pixels. */
module GLTypes {

  const GL_BYTE: nat := 0x1400
  const GL_UNSIGNED_BYTE: nat := 0x1401
  const GL_SHORT: nat := 0x1402
  const GL_UNSIGNED_SHORT: nat := 0x1403
  const GL_UNSIGNED_INT: nat := 0x1405
  const GL_FLOAT: nat := 0x1406
  const GL_FIXED: nat := 0x140C
}
