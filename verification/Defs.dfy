/** kernel/defs.h */
module Defs {
  const PAGE_SIZE: nat := 4096
}
