/** Constants of the shared-memory copy distribution and the vector width
    they imply for an element type. */
module VectorWidth {

  /** Every thread copies 128 bits at a time. */
  const CopyVectorNumBits: int := 128

  /** A GPU workgroup has at most three thread dimensions. */
  const NumGPUDims: int := 3

  /** `copyVectorNumBits / bitWidth`: the number of elements of `bitWidth`
      bits in one 128-bit transfer, i.e. the most elements that fit. */
  function TargetVectorSize(bitWidth: int): (v: int)
    requires bitWidth >= 1
    ensures v >= 0
    ensures v * bitWidth <= CopyVectorNumBits < (v + 1) * bitWidth
    ensures bitWidth <= CopyVectorNumBits <==> v >= 1
  {
    CopyVectorNumBits / bitWidth
  }
}
