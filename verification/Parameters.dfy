/** The parameter entry of the patched kernel's memclear_para.h, shared by the vault and
    the xor variant. */
module Parameters {
  import opened Bytes

  /** `para_t`: a parameter the callee needs; `pointer` counts levels of pointers. */
  datatype Para = Para(addr: ulong, size: ulong, pointer: int)
}
