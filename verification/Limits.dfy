/** The fixed sizes of the kernel (src/lib/pring.h). */
module Limits {
  const MAX_FILES := 128
  const MAX_INODES := 128
  const MAX_BLOCKS := 1024
  const BLOCK_SIZE := 1024
  const INODE_DIRECT_BLOCKS := 12
  const MAX_FILE_SIZE := 4096
  const MAX_PATH_LEN := 256
  const MAX_CMD_LEN := 256
  const HISTORY_SIZE := 100
  const SCREEN_WIDTH := 80
  const SCREEN_HEIGHT := 25
  const MAX_TTYS := 9

  // `file_count` starts at five, so five zero entries always lead the file table.
  const GHOST_ENTRIES := 5
  // The longest name that `strncpy(dst, src, 31)` copies without its counter wrapping.
  const MAX_NAME := 30
  const ROOT_INODE := 1
}
