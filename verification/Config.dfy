/** What the storage layers agree on (src/common/config.h). */
module Config {

  const PAGE_SIZE := 4096
}
