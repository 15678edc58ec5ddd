/**
 The five lookup tables of the CRC code, and the proof that every one of their 1280
 constants is right.

 A table is kept as 16 rows of 16 entries: entry i is at row i / 16, column i % 16.
 What a table has to hold is one sentence, `Holds(table, n)`: its entry for a byte b is
 what b becomes after n clocks of the shift register. The constants are checked against
 it through linearity: eight entries of each table are computed by clocking the register,
 and every other entry is the exclusive or of earlier ones.
 */
module Crc32cTables {

  import opened Crc32cSpec

  type Table = t: seq<seq<bv32>> | |t| == 16 && forall r :: 0 <= r < 16 ==> |t[r]| == 16
    witness seq(16, _ => seq(16, _ => 0))

  function Entry(t: Table, i: bv32): bv32
    requires i < 256
  {
    t[(i >> 4) as int][(i & 15) as int]
  }

  /** Every entry is its own index clocked n times. */
  ghost predicate Holds(t: Table, n: nat) {
    forall i: bv32 | i < 256 :: Entry(t, i) == Steps(n, i)
  }

  datatype Tables = Tables(byteExtension: Table, stride0: Table, stride1: Table, stride2: Table, stride3: Table)

  ghost predicate Correct(t: Tables) {
    && Holds(t.byteExtension, 8)
    && Holds(t.stride0, 104)
    && Holds(t.stride1, 112)
    && Holds(t.stride2, 120)
    && Holds(t.stride3, 128)
  }

  // `kByteExtensionTable`
  function ByteRow(r: nat): (row: seq<bv32>)
    requires r < 16
    ensures |row| == 16
  {
    if r < 4 then
      if r == 0 then [
        0x00000000, 0xf26b8303, 0xe13b70f7, 0x1350f3f4, 0xc79a971f, 0x35f1141c, 0x26a1e7e8, 0xd4ca64eb,
        0x8ad958cf, 0x78b2dbcc, 0x6be22838, 0x9989ab3b, 0x4d43cfd0, 0xbf284cd3, 0xac78bf27, 0x5e133c24]
      else if r == 1 then [
        0x105ec76f, 0xe235446c, 0xf165b798, 0x030e349b, 0xd7c45070, 0x25afd373, 0x36ff2087, 0xc494a384,
        0x9a879fa0, 0x68ec1ca3, 0x7bbcef57, 0x89d76c54, 0x5d1d08bf, 0xaf768bbc, 0xbc267848, 0x4e4dfb4b]
      else if r == 2 then [
        0x20bd8ede, 0xd2d60ddd, 0xc186fe29, 0x33ed7d2a, 0xe72719c1, 0x154c9ac2, 0x061c6936, 0xf477ea35,
        0xaa64d611, 0x580f5512, 0x4b5fa6e6, 0xb93425e5, 0x6dfe410e, 0x9f95c20d, 0x8cc531f9, 0x7eaeb2fa]
      else [
        0x30e349b1, 0xc288cab2, 0xd1d83946, 0x23b3ba45, 0xf779deae, 0x05125dad, 0x1642ae59, 0xe4292d5a,
        0xba3a117e, 0x4851927d, 0x5b016189, 0xa96ae28a, 0x7da08661, 0x8fcb0562, 0x9c9bf696, 0x6ef07595]
    else if r < 8 then
      if r == 4 then [
        0x417b1dbc, 0xb3109ebf, 0xa0406d4b, 0x522bee48, 0x86e18aa3, 0x748a09a0, 0x67dafa54, 0x95b17957,
        0xcba24573, 0x39c9c670, 0x2a993584, 0xd8f2b687, 0x0c38d26c, 0xfe53516f, 0xed03a29b, 0x1f682198]
      else if r == 5 then [
        0x5125dad3, 0xa34e59d0, 0xb01eaa24, 0x42752927, 0x96bf4dcc, 0x64d4cecf, 0x77843d3b, 0x85efbe38,
        0xdbfc821c, 0x2997011f, 0x3ac7f2eb, 0xc8ac71e8, 0x1c661503, 0xee0d9600, 0xfd5d65f4, 0x0f36e6f7]
      else if r == 6 then [
        0x61c69362, 0x93ad1061, 0x80fde395, 0x72966096, 0xa65c047d, 0x5437877e, 0x4767748a, 0xb50cf789,
        0xeb1fcbad, 0x197448ae, 0x0a24bb5a, 0xf84f3859, 0x2c855cb2, 0xdeeedfb1, 0xcdbe2c45, 0x3fd5af46]
      else [
        0x7198540d, 0x83f3d70e, 0x90a324fa, 0x62c8a7f9, 0xb602c312, 0x44694011, 0x5739b3e5, 0xa55230e6,
        0xfb410cc2, 0x092a8fc1, 0x1a7a7c35, 0xe811ff36, 0x3cdb9bdd, 0xceb018de, 0xdde0eb2a, 0x2f8b6829]
    else if r < 12 then
      if r == 8 then [
        0x82f63b78, 0x709db87b, 0x63cd4b8f, 0x91a6c88c, 0x456cac67, 0xb7072f64, 0xa457dc90, 0x563c5f93,
        0x082f63b7, 0xfa44e0b4, 0xe9141340, 0x1b7f9043, 0xcfb5f4a8, 0x3dde77ab, 0x2e8e845f, 0xdce5075c]
      else if r == 9 then [
        0x92a8fc17, 0x60c37f14, 0x73938ce0, 0x81f80fe3, 0x55326b08, 0xa759e80b, 0xb4091bff, 0x466298fc,
        0x1871a4d8, 0xea1a27db, 0xf94ad42f, 0x0b21572c, 0xdfeb33c7, 0x2d80b0c4, 0x3ed04330, 0xccbbc033]
      else if r == 10 then [
        0xa24bb5a6, 0x502036a5, 0x4370c551, 0xb11b4652, 0x65d122b9, 0x97baa1ba, 0x84ea524e, 0x7681d14d,
        0x2892ed69, 0xdaf96e6a, 0xc9a99d9e, 0x3bc21e9d, 0xef087a76, 0x1d63f975, 0x0e330a81, 0xfc588982]
      else [
        0xb21572c9, 0x407ef1ca, 0x532e023e, 0xa145813d, 0x758fe5d6, 0x87e466d5, 0x94b49521, 0x66df1622,
        0x38cc2a06, 0xcaa7a905, 0xd9f75af1, 0x2b9cd9f2, 0xff56bd19, 0x0d3d3e1a, 0x1e6dcdee, 0xec064eed]
    else
      if r == 12 then [
        0xc38d26c4, 0x31e6a5c7, 0x22b65633, 0xd0ddd530, 0x0417b1db, 0xf67c32d8, 0xe52cc12c, 0x1747422f,
        0x49547e0b, 0xbb3ffd08, 0xa86f0efc, 0x5a048dff, 0x8ecee914, 0x7ca56a17, 0x6ff599e3, 0x9d9e1ae0]
      else if r == 13 then [
        0xd3d3e1ab, 0x21b862a8, 0x32e8915c, 0xc083125f, 0x144976b4, 0xe622f5b7, 0xf5720643, 0x07198540,
        0x590ab964, 0xab613a67, 0xb831c993, 0x4a5a4a90, 0x9e902e7b, 0x6cfbad78, 0x7fab5e8c, 0x8dc0dd8f]
      else if r == 14 then [
        0xe330a81a, 0x115b2b19, 0x020bd8ed, 0xf0605bee, 0x24aa3f05, 0xd6c1bc06, 0xc5914ff2, 0x37faccf1,
        0x69e9f0d5, 0x9b8273d6, 0x88d28022, 0x7ab90321, 0xae7367ca, 0x5c18e4c9, 0x4f48173d, 0xbd23943e]
      else [
        0xf36e6f75, 0x0105ec76, 0x12551f82, 0xe03e9c81, 0x34f4f86a, 0xc69f7b69, 0xd5cf889d, 0x27a40b9e,
        0x79b737ba, 0x8bdcb4b9, 0x988c474d, 0x6ae7c44e, 0xbe2da0a5, 0x4c4623a6, 0x5f16d052, 0xad7d5351]
  }

  // `kStrideExtensionTable0`
  function Stride0Row(r: nat): (row: seq<bv32>)
    requires r < 16
    ensures |row| == 16
  {
    if r < 4 then
      if r == 0 then [
        0x00000000, 0x30d23865, 0x61a470ca, 0x517648af, 0xc348e194, 0xf39ad9f1, 0xa2ec915e, 0x923ea93b,
        0x837db5d9, 0xb3af8dbc, 0xe2d9c513, 0xd20bfd76, 0x4035544d, 0x70e76c28, 0x21912487, 0x11431ce2]
      else if r == 1 then [
        0x03171d43, 0x33c52526, 0x62b36d89, 0x526155ec, 0xc05ffcd7, 0xf08dc4b2, 0xa1fb8c1d, 0x9129b478,
        0x806aa89a, 0xb0b890ff, 0xe1ced850, 0xd11ce035, 0x4322490e, 0x73f0716b, 0x228639c4, 0x125401a1]
      else if r == 2 then [
        0x062e3a86, 0x36fc02e3, 0x678a4a4c, 0x57587229, 0xc566db12, 0xf5b4e377, 0xa4c2abd8, 0x941093bd,
        0x85538f5f, 0xb581b73a, 0xe4f7ff95, 0xd425c7f0, 0x461b6ecb, 0x76c956ae, 0x27bf1e01, 0x176d2664]
      else [
        0x053927c5, 0x35eb1fa0, 0x649d570f, 0x544f6f6a, 0xc671c651, 0xf6a3fe34, 0xa7d5b69b, 0x97078efe,
        0x8644921c, 0xb696aa79, 0xe7e0e2d6, 0xd732dab3, 0x450c7388, 0x75de4bed, 0x24a80342, 0x147a3b27]
    else if r < 8 then
      if r == 4 then [
        0x0c5c750c, 0x3c8e4d69, 0x6df805c6, 0x5d2a3da3, 0xcf149498, 0xffc6acfd, 0xaeb0e452, 0x9e62dc37,
        0x8f21c0d5, 0xbff3f8b0, 0xee85b01f, 0xde57887a, 0x4c692141, 0x7cbb1924, 0x2dcd518b, 0x1d1f69ee]
      else if r == 5 then [
        0x0f4b684f, 0x3f99502a, 0x6eef1885, 0x5e3d20e0, 0xcc0389db, 0xfcd1b1be, 0xada7f911, 0x9d75c174,
        0x8c36dd96, 0xbce4e5f3, 0xed92ad5c, 0xdd409539, 0x4f7e3c02, 0x7fac0467, 0x2eda4cc8, 0x1e0874ad]
      else if r == 6 then [
        0x0a724f8a, 0x3aa077ef, 0x6bd63f40, 0x5b040725, 0xc93aae1e, 0xf9e8967b, 0xa89eded4, 0x984ce6b1,
        0x890ffa53, 0xb9ddc236, 0xe8ab8a99, 0xd879b2fc, 0x4a471bc7, 0x7a9523a2, 0x2be36b0d, 0x1b315368]
      else [
        0x096552c9, 0x39b76aac, 0x68c12203, 0x58131a66, 0xca2db35d, 0xfaff8b38, 0xab89c397, 0x9b5bfbf2,
        0x8a18e710, 0xbacadf75, 0xebbc97da, 0xdb6eafbf, 0x49500684, 0x79823ee1, 0x28f4764e, 0x18264e2b]
    else if r < 12 then
      if r == 8 then [
        0x18b8ea18, 0x286ad27d, 0x791c9ad2, 0x49cea2b7, 0xdbf00b8c, 0xeb2233e9, 0xba547b46, 0x8a864323,
        0x9bc55fc1, 0xab1767a4, 0xfa612f0b, 0xcab3176e, 0x588dbe55, 0x685f8630, 0x3929ce9f, 0x09fbf6fa]
      else if r == 9 then [
        0x1baff75b, 0x2b7dcf3e, 0x7a0b8791, 0x4ad9bff4, 0xd8e716cf, 0xe8352eaa, 0xb9436605, 0x89915e60,
        0x98d24282, 0xa8007ae7, 0xf9763248, 0xc9a40a2d, 0x5b9aa316, 0x6b489b73, 0x3a3ed3dc, 0x0aecebb9]
      else if r == 10 then [
        0x1e96d09e, 0x2e44e8fb, 0x7f32a054, 0x4fe09831, 0xddde310a, 0xed0c096f, 0xbc7a41c0, 0x8ca879a5,
        0x9deb6547, 0xad395d22, 0xfc4f158d, 0xcc9d2de8, 0x5ea384d3, 0x6e71bcb6, 0x3f07f419, 0x0fd5cc7c]
      else [
        0x1d81cddd, 0x2d53f5b8, 0x7c25bd17, 0x4cf78572, 0xdec92c49, 0xee1b142c, 0xbf6d5c83, 0x8fbf64e6,
        0x9efc7804, 0xae2e4061, 0xff5808ce, 0xcf8a30ab, 0x5db49990, 0x6d66a1f5, 0x3c10e95a, 0x0cc2d13f]
    else
      if r == 12 then [
        0x14e49f14, 0x2436a771, 0x7540efde, 0x4592d7bb, 0xd7ac7e80, 0xe77e46e5, 0xb6080e4a, 0x86da362f,
        0x97992acd, 0xa74b12a8, 0xf63d5a07, 0xc6ef6262, 0x54d1cb59, 0x6403f33c, 0x3575bb93, 0x05a783f6]
      else if r == 13 then [
        0x17f38257, 0x2721ba32, 0x7657f29d, 0x4685caf8, 0xd4bb63c3, 0xe4695ba6, 0xb51f1309, 0x85cd2b6c,
        0x948e378e, 0xa45c0feb, 0xf52a4744, 0xc5f87f21, 0x57c6d61a, 0x6714ee7f, 0x3662a6d0, 0x06b09eb5]
      else if r == 14 then [
        0x12caa592, 0x22189df7, 0x736ed558, 0x43bced3d, 0xd1824406, 0xe1507c63, 0xb02634cc, 0x80f40ca9,
        0x91b7104b, 0xa165282e, 0xf0136081, 0xc0c158e4, 0x52fff1df, 0x622dc9ba, 0x335b8115, 0x0389b970]
      else [
        0x11ddb8d1, 0x210f80b4, 0x7079c81b, 0x40abf07e, 0xd2955945, 0xe2476120, 0xb331298f, 0x83e311ea,
        0x92a00d08, 0xa272356d, 0xf3047dc2, 0xc3d645a7, 0x51e8ec9c, 0x613ad4f9, 0x304c9c56, 0x009ea433]
  }

  // `kStrideExtensionTable1`
  function Stride1Row(r: nat): (row: seq<bv32>)
    requires r < 16
    ensures |row| == 16
  {
    if r < 4 then
      if r == 0 then [
        0x00000000, 0x54075546, 0xa80eaa8c, 0xfc09ffca, 0x55f123e9, 0x01f676af, 0xfdff8965, 0xa9f8dc23,
        0xabe247d2, 0xffe51294, 0x03eced5e, 0x57ebb818, 0xfe13643b, 0xaa14317d, 0x561dceb7, 0x021a9bf1]
      else if r == 1 then [
        0x5228f955, 0x062fac13, 0xfa2653d9, 0xae21069f, 0x07d9dabc, 0x53de8ffa, 0xafd77030, 0xfbd02576,
        0xf9cabe87, 0xadcdebc1, 0x51c4140b, 0x05c3414d, 0xac3b9d6e, 0xf83cc828, 0x043537e2, 0x503262a4]
      else if r == 2 then [
        0xa451f2aa, 0xf056a7ec, 0x0c5f5826, 0x58580d60, 0xf1a0d143, 0xa5a78405, 0x59ae7bcf, 0x0da92e89,
        0x0fb3b578, 0x5bb4e03e, 0xa7bd1ff4, 0xf3ba4ab2, 0x5a429691, 0x0e45c3d7, 0xf24c3c1d, 0xa64b695b]
      else [
        0xf6790bff, 0xa27e5eb9, 0x5e77a173, 0x0a70f435, 0xa3882816, 0xf78f7d50, 0x0b86829a, 0x5f81d7dc,
        0x5d9b4c2d, 0x099c196b, 0xf595e6a1, 0xa192b3e7, 0x086a6fc4, 0x5c6d3a82, 0xa064c548, 0xf463900e]
    else if r < 8 then
      if r == 4 then [
        0x4d4f93a5, 0x1948c6e3, 0xe5413929, 0xb1466c6f, 0x18beb04c, 0x4cb9e50a, 0xb0b01ac0, 0xe4b74f86,
        0xe6add477, 0xb2aa8131, 0x4ea37efb, 0x1aa42bbd, 0xb35cf79e, 0xe75ba2d8, 0x1b525d12, 0x4f550854]
      else if r == 5 then [
        0x1f676af0, 0x4b603fb6, 0xb769c07c, 0xe36e953a, 0x4a964919, 0x1e911c5f, 0xe298e395, 0xb69fb6d3,
        0xb4852d22, 0xe0827864, 0x1c8b87ae, 0x488cd2e8, 0xe1740ecb, 0xb5735b8d, 0x497aa447, 0x1d7df101]
      else if r == 6 then [
        0xe91e610f, 0xbd193449, 0x4110cb83, 0x15179ec5, 0xbcef42e6, 0xe8e817a0, 0x14e1e86a, 0x40e6bd2c,
        0x42fc26dd, 0x16fb739b, 0xeaf28c51, 0xbef5d917, 0x170d0534, 0x430a5072, 0xbf03afb8, 0xeb04fafe]
      else [
        0xbb36985a, 0xef31cd1c, 0x133832d6, 0x473f6790, 0xeec7bbb3, 0xbac0eef5, 0x46c9113f, 0x12ce4479,
        0x10d4df88, 0x44d38ace, 0xb8da7504, 0xecdd2042, 0x4525fc61, 0x1122a927, 0xed2b56ed, 0xb92c03ab]
    else if r < 12 then
      if r == 8 then [
        0x9a9f274a, 0xce98720c, 0x32918dc6, 0x6696d880, 0xcf6e04a3, 0x9b6951e5, 0x6760ae2f, 0x3367fb69,
        0x317d6098, 0x657a35de, 0x9973ca14, 0xcd749f52, 0x648c4371, 0x308b1637, 0xcc82e9fd, 0x9885bcbb]
      else if r == 9 then [
        0xc8b7de1f, 0x9cb08b59, 0x60b97493, 0x34be21d5, 0x9d46fdf6, 0xc941a8b0, 0x3548577a, 0x614f023c,
        0x635599cd, 0x3752cc8b, 0xcb5b3341, 0x9f5c6607, 0x36a4ba24, 0x62a3ef62, 0x9eaa10a8, 0xcaad45ee]
      else if r == 10 then [
        0x3eced5e0, 0x6ac980a6, 0x96c07f6c, 0xc2c72a2a, 0x6b3ff609, 0x3f38a34f, 0xc3315c85, 0x973609c3,
        0x952c9232, 0xc12bc774, 0x3d2238be, 0x69256df8, 0xc0ddb1db, 0x94dae49d, 0x68d31b57, 0x3cd44e11]
      else [
        0x6ce62cb5, 0x38e179f3, 0xc4e88639, 0x90efd37f, 0x39170f5c, 0x6d105a1a, 0x9119a5d0, 0xc51ef096,
        0xc7046b67, 0x93033e21, 0x6f0ac1eb, 0x3b0d94ad, 0x92f5488e, 0xc6f21dc8, 0x3afbe202, 0x6efcb744]
    else
      if r == 12 then [
        0xd7d0b4ef, 0x83d7e1a9, 0x7fde1e63, 0x2bd94b25, 0x82219706, 0xd626c240, 0x2a2f3d8a, 0x7e2868cc,
        0x7c32f33d, 0x2835a67b, 0xd43c59b1, 0x803b0cf7, 0x29c3d0d4, 0x7dc48592, 0x81cd7a58, 0xd5ca2f1e]
      else if r == 13 then [
        0x85f84dba, 0xd1ff18fc, 0x2df6e736, 0x79f1b270, 0xd0096e53, 0x840e3b15, 0x7807c4df, 0x2c009199,
        0x2e1a0a68, 0x7a1d5f2e, 0x8614a0e4, 0xd213f5a2, 0x7beb2981, 0x2fec7cc7, 0xd3e5830d, 0x87e2d64b]
      else if r == 14 then [
        0x73814645, 0x27861303, 0xdb8fecc9, 0x8f88b98f, 0x267065ac, 0x727730ea, 0x8e7ecf20, 0xda799a66,
        0xd8630197, 0x8c6454d1, 0x706dab1b, 0x246afe5d, 0x8d92227e, 0xd9957738, 0x259c88f2, 0x719bddb4]
      else [
        0x21a9bf10, 0x75aeea56, 0x89a7159c, 0xdda040da, 0x74589cf9, 0x205fc9bf, 0xdc563675, 0x88516333,
        0x8a4bf8c2, 0xde4cad84, 0x2245524e, 0x76420708, 0xdfbadb2b, 0x8bbd8e6d, 0x77b471a7, 0x23b324e1]
  }

  // `kStrideExtensionTable2`
  function Stride2Row(r: nat): (row: seq<bv32>)
    requires r < 16
    ensures |row| == 16
  {
    if r < 4 then
      if r == 0 then [
        0x00000000, 0x678efd01, 0xcf1dfa02, 0xa8930703, 0x9bd782f5, 0xfc597ff4, 0x54ca78f7, 0x334485f6,
        0x3243731b, 0x55cd8e1a, 0xfd5e8919, 0x9ad07418, 0xa994f1ee, 0xce1a0cef, 0x66890bec, 0x0107f6ed]
      else if r == 1 then [
        0x6486e636, 0x03081b37, 0xab9b1c34, 0xcc15e135, 0xff5164c3, 0x98df99c2, 0x304c9ec1, 0x57c263c0,
        0x56c5952d, 0x314b682c, 0x99d86f2f, 0xfe56922e, 0xcd1217d8, 0xaa9cead9, 0x020fedda, 0x658110db]
      else if r == 2 then [
        0xc90dcc6c, 0xae83316d, 0x0610366e, 0x619ecb6f, 0x52da4e99, 0x3554b398, 0x9dc7b49b, 0xfa49499a,
        0xfb4ebf77, 0x9cc04276, 0x34534575, 0x53ddb874, 0x60993d82, 0x0717c083, 0xaf84c780, 0xc80a3a81]
      else [
        0xad8b2a5a, 0xca05d75b, 0x6296d058, 0x05182d59, 0x365ca8af, 0x51d255ae, 0xf94152ad, 0x9ecfafac,
        0x9fc85941, 0xf846a440, 0x50d5a343, 0x375b5e42, 0x041fdbb4, 0x639126b5, 0xcb0221b6, 0xac8cdcb7]
    else if r < 8 then
      if r == 4 then [
        0x97f7ee29, 0xf0791328, 0x58ea142b, 0x3f64e92a, 0x0c206cdc, 0x6bae91dd, 0xc33d96de, 0xa4b36bdf,
        0xa5b49d32, 0xc23a6033, 0x6aa96730, 0x0d279a31, 0x3e631fc7, 0x59ede2c6, 0xf17ee5c5, 0x96f018c4]
      else if r == 5 then [
        0xf371081f, 0x94fff51e, 0x3c6cf21d, 0x5be20f1c, 0x68a68aea, 0x0f2877eb, 0xa7bb70e8, 0xc0358de9,
        0xc1327b04, 0xa6bc8605, 0x0e2f8106, 0x69a17c07, 0x5ae5f9f1, 0x3d6b04f0, 0x95f803f3, 0xf276fef2]
      else if r == 6 then [
        0x5efa2245, 0x3974df44, 0x91e7d847, 0xf6692546, 0xc52da0b0, 0xa2a35db1, 0x0a305ab2, 0x6dbea7b3,
        0x6cb9515e, 0x0b37ac5f, 0xa3a4ab5c, 0xc42a565d, 0xf76ed3ab, 0x90e02eaa, 0x387329a9, 0x5ffdd4a8]
      else [
        0x3a7cc473, 0x5df23972, 0xf5613e71, 0x92efc370, 0xa1ab4686, 0xc625bb87, 0x6eb6bc84, 0x09384185,
        0x083fb768, 0x6fb14a69, 0xc7224d6a, 0xa0acb06b, 0x93e8359d, 0xf466c89c, 0x5cf5cf9f, 0x3b7b329e]
    else if r < 12 then
      if r == 8 then [
        0x2a03aaa3, 0x4d8d57a2, 0xe51e50a1, 0x8290ada0, 0xb1d42856, 0xd65ad557, 0x7ec9d254, 0x19472f55,
        0x1840d9b8, 0x7fce24b9, 0xd75d23ba, 0xb0d3debb, 0x83975b4d, 0xe419a64c, 0x4c8aa14f, 0x2b045c4e]
      else if r == 9 then [
        0x4e854c95, 0x290bb194, 0x8198b697, 0xe6164b96, 0xd552ce60, 0xb2dc3361, 0x1a4f3462, 0x7dc1c963,
        0x7cc63f8e, 0x1b48c28f, 0xb3dbc58c, 0xd455388d, 0xe711bd7b, 0x809f407a, 0x280c4779, 0x4f82ba78]
      else if r == 10 then [
        0xe30e66cf, 0x84809bce, 0x2c139ccd, 0x4b9d61cc, 0x78d9e43a, 0x1f57193b, 0xb7c41e38, 0xd04ae339,
        0xd14d15d4, 0xb6c3e8d5, 0x1e50efd6, 0x79de12d7, 0x4a9a9721, 0x2d146a20, 0x85876d23, 0xe2099022]
      else [
        0x878880f9, 0xe0067df8, 0x48957afb, 0x2f1b87fa, 0x1c5f020c, 0x7bd1ff0d, 0xd342f80e, 0xb4cc050f,
        0xb5cbf3e2, 0xd2450ee3, 0x7ad609e0, 0x1d58f4e1, 0x2e1c7117, 0x49928c16, 0xe1018b15, 0x868f7614]
    else
      if r == 12 then [
        0xbdf4448a, 0xda7ab98b, 0x72e9be88, 0x15674389, 0x2623c67f, 0x41ad3b7e, 0xe93e3c7d, 0x8eb0c17c,
        0x8fb73791, 0xe839ca90, 0x40aacd93, 0x27243092, 0x1460b564, 0x73ee4865, 0xdb7d4f66, 0xbcf3b267]
      else if r == 13 then [
        0xd972a2bc, 0xbefc5fbd, 0x166f58be, 0x71e1a5bf, 0x42a52049, 0x252bdd48, 0x8db8da4b, 0xea36274a,
        0xeb31d1a7, 0x8cbf2ca6, 0x242c2ba5, 0x43a2d6a4, 0x70e65352, 0x1768ae53, 0xbffba950, 0xd8755451]
      else if r == 14 then [
        0x74f988e6, 0x137775e7, 0xbbe472e4, 0xdc6a8fe5, 0xef2e0a13, 0x88a0f712, 0x2033f011, 0x47bd0d10,
        0x46bafbfd, 0x213406fc, 0x89a701ff, 0xee29fcfe, 0xdd6d7908, 0xbae38409, 0x1270830a, 0x75fe7e0b]
      else [
        0x107f6ed0, 0x77f193d1, 0xdf6294d2, 0xb8ec69d3, 0x8ba8ec25, 0xec261124, 0x44b51627, 0x233beb26,
        0x223c1dcb, 0x45b2e0ca, 0xed21e7c9, 0x8aaf1ac8, 0xb9eb9f3e, 0xde65623f, 0x76f6653c, 0x1178983d]
  }

  // `kStrideExtensionTable3`
  function Stride3Row(r: nat): (row: seq<bv32>)
    requires r < 16
    ensures |row| == 16
  {
    if r < 4 then
      if r == 0 then [
        0x00000000, 0xf20c0dfe, 0xe1f46d0d, 0x13f860f3, 0xc604aceb, 0x3408a115, 0x27f0c1e6, 0xd5fccc18,
        0x89e52f27, 0x7be922d9, 0x6811422a, 0x9a1d4fd4, 0x4fe183cc, 0xbded8e32, 0xae15eec1, 0x5c19e33f]
      else if r == 1 then [
        0x162628bf, 0xe42a2541, 0xf7d245b2, 0x05de484c, 0xd0228454, 0x222e89aa, 0x31d6e959, 0xc3dae4a7,
        0x9fc30798, 0x6dcf0a66, 0x7e376a95, 0x8c3b676b, 0x59c7ab73, 0xabcba68d, 0xb833c67e, 0x4a3fcb80]
      else if r == 2 then [
        0x2c4c517e, 0xde405c80, 0xcdb83c73, 0x3fb4318d, 0xea48fd95, 0x1844f06b, 0x0bbc9098, 0xf9b09d66,
        0xa5a97e59, 0x57a573a7, 0x445d1354, 0xb6511eaa, 0x63add2b2, 0x91a1df4c, 0x8259bfbf, 0x7055b241]
      else [
        0x3a6a79c1, 0xc866743f, 0xdb9e14cc, 0x29921932, 0xfc6ed52a, 0x0e62d8d4, 0x1d9ab827, 0xef96b5d9,
        0xb38f56e6, 0x41835b18, 0x527b3beb, 0xa0773615, 0x758bfa0d, 0x8787f7f3, 0x947f9700, 0x66739afe]
    else if r < 8 then
      if r == 4 then [
        0x5898a2fc, 0xaa94af02, 0xb96ccff1, 0x4b60c20f, 0x9e9c0e17, 0x6c9003e9, 0x7f68631a, 0x8d646ee4,
        0xd17d8ddb, 0x23718025, 0x3089e0d6, 0xc285ed28, 0x17792130, 0xe5752cce, 0xf68d4c3d, 0x048141c3]
      else if r == 5 then [
        0x4ebe8a43, 0xbcb287bd, 0xaf4ae74e, 0x5d46eab0, 0x88ba26a8, 0x7ab62b56, 0x694e4ba5, 0x9b42465b,
        0xc75ba564, 0x3557a89a, 0x26afc869, 0xd4a3c597, 0x015f098f, 0xf3530471, 0xe0ab6482, 0x12a7697c]
      else if r == 6 then [
        0x74d4f382, 0x86d8fe7c, 0x95209e8f, 0x672c9371, 0xb2d05f69, 0x40dc5297, 0x53243264, 0xa1283f9a,
        0xfd31dca5, 0x0f3dd15b, 0x1cc5b1a8, 0xeec9bc56, 0x3b35704e, 0xc9397db0, 0xdac11d43, 0x28cd10bd]
      else [
        0x62f2db3d, 0x90fed6c3, 0x8306b630, 0x710abbce, 0xa4f677d6, 0x56fa7a28, 0x45021adb, 0xb70e1725,
        0xeb17f41a, 0x191bf9e4, 0x0ae39917, 0xf8ef94e9, 0x2d1358f1, 0xdf1f550f, 0xcce735fc, 0x3eeb3802]
    else if r < 12 then
      if r == 8 then [
        0xb13145f8, 0x433d4806, 0x50c528f5, 0xa2c9250b, 0x7735e913, 0x8539e4ed, 0x96c1841e, 0x64cd89e0,
        0x38d46adf, 0xcad86721, 0xd92007d2, 0x2b2c0a2c, 0xfed0c634, 0x0cdccbca, 0x1f24ab39, 0xed28a6c7]
      else if r == 9 then [
        0xa7176d47, 0x551b60b9, 0x46e3004a, 0xb4ef0db4, 0x6113c1ac, 0x931fcc52, 0x80e7aca1, 0x72eba15f,
        0x2ef24260, 0xdcfe4f9e, 0xcf062f6d, 0x3d0a2293, 0xe8f6ee8b, 0x1afae375, 0x09028386, 0xfb0e8e78]
      else if r == 10 then [
        0x9d7d1486, 0x6f711978, 0x7c89798b, 0x8e857475, 0x5b79b86d, 0xa975b593, 0xba8dd560, 0x4881d89e,
        0x14983ba1, 0xe694365f, 0xf56c56ac, 0x07605b52, 0xd29c974a, 0x20909ab4, 0x3368fa47, 0xc164f7b9]
      else [
        0x8b5b3c39, 0x795731c7, 0x6aaf5134, 0x98a35cca, 0x4d5f90d2, 0xbf539d2c, 0xacabfddf, 0x5ea7f021,
        0x02be131e, 0xf0b21ee0, 0xe34a7e13, 0x114673ed, 0xc4babff5, 0x36b6b20b, 0x254ed2f8, 0xd742df06]
    else
      if r == 12 then [
        0xe9a9e704, 0x1ba5eafa, 0x085d8a09, 0xfa5187f7, 0x2fad4bef, 0xdda14611, 0xce5926e2, 0x3c552b1c,
        0x604cc823, 0x9240c5dd, 0x81b8a52e, 0x73b4a8d0, 0xa64864c8, 0x54446936, 0x47bc09c5, 0xb5b0043b]
      else if r == 13 then [
        0xff8fcfbb, 0x0d83c245, 0x1e7ba2b6, 0xec77af48, 0x398b6350, 0xcb876eae, 0xd87f0e5d, 0x2a7303a3,
        0x766ae09c, 0x8466ed62, 0x979e8d91, 0x6592806f, 0xb06e4c77, 0x42624189, 0x519a217a, 0xa3962c84]
      else if r == 14 then [
        0xc5e5b67a, 0x37e9bb84, 0x2411db77, 0xd61dd689, 0x03e11a91, 0xf1ed176f, 0xe215779c, 0x10197a62,
        0x4c00995d, 0xbe0c94a3, 0xadf4f450, 0x5ff8f9ae, 0x8a0435b6, 0x78083848, 0x6bf058bb, 0x99fc5545]
      else [
        0xd3c39ec5, 0x21cf933b, 0x3237f3c8, 0xc03bfe36, 0x15c7322e, 0xe7cb3fd0, 0xf4335f23, 0x063f52dd,
        0x5a26b1e2, 0xa82abc1c, 0xbbd2dcef, 0x49ded111, 0x9c221d09, 0x6e2e10f7, 0x7dd67004, 0x8fda7dfa]
  }

  function FromRows(row: nat --> seq<bv32>): (t: Table)
    requires forall r: nat :: r < 16 ==> row.requires(r) && |row(r)| == 16
    ensures forall r: nat :: r < 16 ==> t[r] == row(r)
  {
    seq(16, (r: nat) requires r < 16 && row.requires(r) => row(r))
  }

  /** The tables of the source. */
  function SourceTables(): Tables {
    Tables(FromRows((r: nat) requires r < 16 => ByteRow(r)),
           FromRows((r: nat) requires r < 16 => Stride0Row(r)),
           FromRows((r: nat) requires r < 16 => Stride1Row(r)),
           FromRows((r: nat) requires r < 16 => Stride2Row(r)),
           FromRows((r: nat) requires r < 16 => Stride3Row(r)))
  }

  // ---------- linearity of a table ----------

  /** The four values at the powers of two determine all sixteen. */
  predicate Spanned(v: seq<bv32>)
    requires |v| == 16
  {
    && v[0] == 0 && v[3] == Xor(v[2], v[1]) && v[5] == Xor(v[4], v[1]) && v[6] == Xor(v[4], v[2]) && v[7] == Xor(v[4], v[3])
    && v[9] == Xor(v[8], v[1]) && v[10] == Xor(v[8], v[2]) && v[11] == Xor(v[8], v[3]) && v[12] == Xor(v[8], v[4])
    && v[13] == Xor(v[8], v[5]) && v[14] == Xor(v[8], v[6]) && v[15] == Xor(v[8], v[7])
  }

  /** A row is the first row plus its own first entry. */
  predicate Translated(row: seq<bv32>, first: seq<bv32>)
    requires |row| == |first| == 16
  {
    && row[0] == Xor(row[0], first[0]) && row[1] == Xor(row[0], first[1]) && row[2] == Xor(row[0], first[2])
    && row[3] == Xor(row[0], first[3]) && row[4] == Xor(row[0], first[4]) && row[5] == Xor(row[0], first[5])
    && row[6] == Xor(row[0], first[6]) && row[7] == Xor(row[0], first[7]) && row[8] == Xor(row[0], first[8])
    && row[9] == Xor(row[0], first[9]) && row[10] == Xor(row[0], first[10]) && row[11] == Xor(row[0], first[11])
    && row[12] == Xor(row[0], first[12]) && row[13] == Xor(row[0], first[13]) && row[14] == Xor(row[0], first[14])
    && row[15] == Xor(row[0], first[15])
  }

  /** From sixteen equations to any one of them. */
  lemma Pick<T>(v: seq<T>, f: seq<T>, c: nat)
    requires c < |v| == |f| == 16
    requires v[0] == f[0] && v[1] == f[1] && v[2] == f[2] && v[3] == f[3]
    requires v[4] == f[4] && v[5] == f[5] && v[6] == f[6] && v[7] == f[7]
    requires v[8] == f[8] && v[9] == f[9] && v[10] == f[10] && v[11] == f[11]
    requires v[12] == f[12] && v[13] == f[13] && v[14] == f[14] && v[15] == f[15]
    ensures v[c] == f[c]
  {}

  // ---------- clocking the register on constants ----------

  function EightClocks(c: bv32): bv32 {
    Step(Step(Step(Step(Step(Step(Step(Step(c))))))))
  }

  lemma EightSteps(c: bv32)
    ensures Steps(8, c) == EightClocks(c)
  {
    var d := Step(Step(c));
    var e := Step(Step(d));
    var f := Step(Step(e));
    assert Steps(8, c) == Steps(7, Step(c)) == Steps(6, d);
    assert Steps(6, d) == Steps(5, Step(d)) == Steps(4, e);
    assert Steps(4, e) == Steps(3, Step(e)) == Steps(2, f);
    assert Steps(2, f) == Steps(1, Step(f)) == Steps(0, Step(Step(f)));
  }

  /** Eight more clocks. */
  lemma Clock(n: nat, c: bv32, d: bv32, e: bv32)
    requires Steps(n, c) == d
    requires EightClocks(d) == e
    ensures Steps(n + 8, c) == e
  {
    StepsCompose(8, n, c);
    EightSteps(d);
  }

  lemma Clocked1()
    ensures Steps(8, 1) == 0xf26b8303 && Steps(104, 1) == 0x30d23865 && Steps(112, 1) == 0x54075546
    ensures Steps(120, 1) == 0x678efd01 && Steps(128, 1) == 0xf20c0dfe
  {
    Clock(0, 1, 0x00000001, 0xf26b8303);
    Clock(8, 1, 0xf26b8303, 0x13a29877);
    Clock(16, 1, 0x13a29877, 0xa541927e);
    Clock(24, 1, 0xa541927e, 0xdd45aab8);
    Clock(32, 1, 0xdd45aab8, 0x38116fac);
    Clock(40, 1, 0x38116fac, 0xef306b19);
    Clock(48, 1, 0xef306b19, 0x68032cc8);
    Clock(56, 1, 0x68032cc8, 0x493c7d27);
    Clock(64, 1, 0x493c7d27, 0xf43ed648);
    Clock(72, 1, 0xf43ed648, 0xcb567ba5);
    Clock(80, 1, 0xcb567ba5, 0x9771f7c1);
    Clock(88, 1, 0x9771f7c1, 0x3171d430);
    Clock(96, 1, 0x3171d430, 0x30d23865);
    Clock(104, 1, 0x30d23865, 0x54075546);
    Clock(112, 1, 0x54075546, 0x678efd01);
    Clock(120, 1, 0x678efd01, 0xf20c0dfe);
  }

  lemma Clocked2()
    ensures Steps(8, 2) == 0xe13b70f7 && Steps(104, 2) == 0x61a470ca && Steps(112, 2) == 0xa80eaa8c
    ensures Steps(120, 2) == 0xcf1dfa02 && Steps(128, 2) == 0xe1f46d0d
  {
    Clock(0, 2, 0x00000002, 0xe13b70f7);
    Clock(8, 2, 0xe13b70f7, 0x274530ee);
    Clock(16, 2, 0x274530ee, 0x4f6f520d);
    Clock(24, 2, 0x4f6f520d, 0xbf672381);
    Clock(32, 2, 0xbf672381, 0x7022df58);
    Clock(40, 2, 0x7022df58, 0xdb8ca0c3);
    Clock(48, 2, 0xdb8ca0c3, 0xd0065990);
    Clock(56, 2, 0xd0065990, 0x9278fa4e);
    Clock(64, 2, 0x9278fa4e, 0xed91da61);
    Clock(72, 2, 0xed91da61, 0x934081bb);
    Clock(80, 2, 0x934081bb, 0x2b0f9973);
    Clock(88, 2, 0x2b0f9973, 0x62e3a860);
    Clock(96, 2, 0x62e3a860, 0x61a470ca);
    Clock(104, 2, 0x61a470ca, 0xa80eaa8c);
    Clock(112, 2, 0xa80eaa8c, 0xcf1dfa02);
    Clock(120, 2, 0xcf1dfa02, 0xe1f46d0d);
  }

  lemma Clocked4()
    ensures Steps(8, 4) == 0xc79a971f && Steps(104, 4) == 0xc348e194 && Steps(112, 4) == 0x55f123e9
    ensures Steps(120, 4) == 0x9bd782f5 && Steps(128, 4) == 0xc604aceb
  {
    Clock(0, 4, 0x00000004, 0xc79a971f);
    Clock(8, 4, 0xc79a971f, 0x4e8a61dc);
    Clock(16, 4, 0x4e8a61dc, 0x9edea41a);
    Clock(24, 4, 0x9edea41a, 0x7b2231f3);
    Clock(32, 4, 0x7b2231f3, 0xe045beb0);
    Clock(40, 4, 0xe045beb0, 0xb2f53777);
    Clock(48, 4, 0xb2f53777, 0xa5e0c5d1);
    Clock(56, 4, 0xa5e0c5d1, 0x211d826d);
    Clock(64, 4, 0x211d826d, 0xdecfc233);
    Clock(72, 4, 0xdecfc233, 0x236d7587);
    Clock(80, 4, 0x236d7587, 0x561f32e6);
    Clock(88, 4, 0x561f32e6, 0xc5c750c0);
    Clock(96, 4, 0xc5c750c0, 0xc348e194);
    Clock(104, 4, 0xc348e194, 0x55f123e9);
    Clock(112, 4, 0x55f123e9, 0x9bd782f5);
    Clock(120, 4, 0x9bd782f5, 0xc604aceb);
  }

  lemma Clocked8()
    ensures Steps(8, 8) == 0x8ad958cf && Steps(104, 8) == 0x837db5d9 && Steps(112, 8) == 0xabe247d2
    ensures Steps(120, 8) == 0x3243731b && Steps(128, 8) == 0x89e52f27
  {
    Clock(0, 8, 0x00000008, 0x8ad958cf);
    Clock(8, 8, 0x8ad958cf, 0x9d14c3b8);
    Clock(16, 8, 0x9d14c3b8, 0x38513ec5);
    Clock(24, 8, 0x38513ec5, 0xf64463e6);
    Clock(32, 8, 0xf64463e6, 0xc5670b91);
    Clock(40, 8, 0xc5670b91, 0x6006181f);
    Clock(48, 8, 0x6006181f, 0x4e2dfd53);
    Clock(56, 8, 0x4e2dfd53, 0x423b04da);
    Clock(64, 8, 0x423b04da, 0xb873f297);
    Clock(72, 8, 0xb873f297, 0x46daeb0e);
    Clock(80, 8, 0x46daeb0e, 0xac3e65cc);
    Clock(88, 8, 0xac3e65cc, 0x8e62d771);
    Clock(96, 8, 0x8e62d771, 0x837db5d9);
    Clock(104, 8, 0x837db5d9, 0xabe247d2);
    Clock(112, 8, 0xabe247d2, 0x3243731b);
    Clock(120, 8, 0x3243731b, 0x89e52f27);
  }

  lemma Clocked16()
    ensures Steps(8, 16) == 0x105ec76f && Steps(104, 16) == 0x03171d43 && Steps(112, 16) == 0x5228f955
    ensures Steps(120, 16) == 0x6486e636 && Steps(128, 16) == 0x162628bf
  {
    Clock(0, 16, 0x00000010, 0x105ec76f);
    Clock(8, 16, 0x105ec76f, 0x3fc5f181);
    Clock(16, 16, 0x3fc5f181, 0x70a27d8a);
    Clock(24, 16, 0x70a27d8a, 0xe964b13d);
    Clock(32, 16, 0xe964b13d, 0x8f2261d3);
    Clock(40, 16, 0x8f2261d3, 0xc00c303e);
    Clock(48, 16, 0xc00c303e, 0x9c5bfaa6);
    Clock(56, 16, 0x9c5bfaa6, 0x847609b4);
    Clock(64, 16, 0x847609b4, 0x750b93df);
    Clock(72, 16, 0x750b93df, 0x8db5d61c);
    Clock(80, 16, 0x8db5d61c, 0x5d90bd69);
    Clock(88, 16, 0x5d90bd69, 0x1929d813);
    Clock(96, 16, 0x1929d813, 0x03171d43);
    Clock(104, 16, 0x03171d43, 0x5228f955);
    Clock(112, 16, 0x5228f955, 0x6486e636);
    Clock(120, 16, 0x6486e636, 0x162628bf);
  }

  lemma Clocked32()
    ensures Steps(8, 32) == 0x20bd8ede && Steps(104, 32) == 0x062e3a86 && Steps(112, 32) == 0xa451f2aa
    ensures Steps(120, 32) == 0xc90dcc6c && Steps(128, 32) == 0x2c4c517e
  {
    Clock(0, 32, 0x00000020, 0x20bd8ede);
    Clock(8, 32, 0x20bd8ede, 0x7f8be302);
    Clock(16, 32, 0x7f8be302, 0xe144fb14);
    Clock(24, 32, 0xe144fb14, 0xd725148b);
    Clock(32, 32, 0xd725148b, 0x1ba8b557);
    Clock(40, 32, 0x1ba8b557, 0x85f4168d);
    Clock(48, 32, 0x85f4168d, 0x3d5b83bd);
    Clock(56, 32, 0x3d5b83bd, 0x0d006599);
    Clock(64, 32, 0x0d006599, 0xea1727be);
    Clock(72, 32, 0xea1727be, 0x1e87dac9);
    Clock(80, 32, 0x1e87dac9, 0xbb217ad2);
    Clock(88, 32, 0xbb217ad2, 0x3253b026);
    Clock(96, 32, 0x3253b026, 0x062e3a86);
    Clock(104, 32, 0x062e3a86, 0xa451f2aa);
    Clock(112, 32, 0xa451f2aa, 0xc90dcc6c);
    Clock(120, 32, 0xc90dcc6c, 0x2c4c517e);
  }

  lemma Clocked64()
    ensures Steps(8, 64) == 0x417b1dbc && Steps(104, 64) == 0x0c5c750c && Steps(112, 64) == 0x4d4f93a5
    ensures Steps(120, 64) == 0x97f7ee29 && Steps(128, 64) == 0x5898a2fc
  {
    Clock(0, 64, 0x00000040, 0x417b1dbc);
    Clock(8, 64, 0x417b1dbc, 0xff17c604);
    Clock(16, 64, 0xff17c604, 0xc76580d9);
    Clock(24, 64, 0xc76580d9, 0xaba65fe7);
    Clock(32, 64, 0xaba65fe7, 0x37516aae);
    Clock(40, 64, 0x37516aae, 0x0e045beb);
    Clock(48, 64, 0x0e045beb, 0x7ab7077a);
    Clock(56, 64, 0x7ab7077a, 0x1a00cb32);
    Clock(64, 64, 0x1a00cb32, 0xd1c2398d);
    Clock(72, 64, 0xd1c2398d, 0x3d0fb592);
    Clock(80, 64, 0x3d0fb592, 0x73ae8355);
    Clock(88, 64, 0x73ae8355, 0x64a7604c);
    Clock(96, 64, 0x64a7604c, 0x0c5c750c);
    Clock(104, 64, 0x0c5c750c, 0x4d4f93a5);
    Clock(112, 64, 0x4d4f93a5, 0x97f7ee29);
    Clock(120, 64, 0x97f7ee29, 0x5898a2fc);
  }

  lemma Clocked128()
    ensures Steps(8, 128) == 0x82f63b78 && Steps(104, 128) == 0x18b8ea18 && Steps(112, 128) == 0x9a9f274a
    ensures Steps(120, 128) == 0x2a03aaa3 && Steps(128, 128) == 0xb13145f8
  {
    Clock(0, 128, 0x00000080, 0x82f63b78);
    Clock(8, 128, 0x82f63b78, 0xfbc3faf9);
    Clock(16, 128, 0xfbc3faf9, 0x8b277743);
    Clock(24, 128, 0x8b277743, 0x52a0c93f);
    Clock(32, 128, 0x52a0c93f, 0x6ea2d55c);
    Clock(40, 128, 0x6ea2d55c, 0x1c08b7d6);
    Clock(48, 128, 0x1c08b7d6, 0xf56e0ef4);
    Clock(56, 128, 0xf56e0ef4, 0x34019664);
    Clock(64, 128, 0x34019664, 0xa66805eb);
    Clock(72, 128, 0xa66805eb, 0x7a1f6b24);
    Clock(80, 128, 0x7a1f6b24, 0xe75d06aa);
    Clock(88, 128, 0xe75d06aa, 0xc94ec098);
    Clock(96, 128, 0xc94ec098, 0x18b8ea18);
    Clock(104, 128, 0x18b8ea18, 0x9a9f274a);
    Clock(112, 128, 0x9a9f274a, 0x2a03aaa3);
    Clock(120, 128, 0x2a03aaa3, 0xb13145f8);
  }

  // ---------- from the constants to the meaning ----------

  lemma StepsOfZero(n: nat)
    ensures Steps(n, 0) == 0
  {
    StepsAreLinear(n, 0, 0);
    XorSelf(0);
    XorSelf(Steps(n, 0));
  }

  lemma SumOfSteps(n: nat, a: bv32, b: bv32, x: bv32, y: bv32)
    requires Steps(n, a) == x && Steps(n, b) == y
    ensures Steps(n, Xor(a, b)) == Xor(x, y)
  {
    StepsAreLinear(n, a, b);
  }

  /** Sixteen spanned values are the clocked sums of the four units. */
  lemma SpannedIsClocked(n: nat, v: seq<bv32>, u1: bv32, u2: bv32, u4: bv32, u8: bv32)
    requires |v| == 16 && Spanned(v)
    requires v[1] == Steps(n, u1) && v[2] == Steps(n, u2) && v[4] == Steps(n, u4) && v[8] == Steps(n, u8)
    ensures var u3 := Xor(u2, u1); var u5 := Xor(u4, u1); var u6 := Xor(u4, u2); var u7 := Xor(u4, u3);
            && v[0] == Steps(n, 0) && v[3] == Steps(n, u3) && v[5] == Steps(n, u5) && v[6] == Steps(n, u6) && v[7] == Steps(n, u7)
            && v[9] == Steps(n, Xor(u8, u1)) && v[10] == Steps(n, Xor(u8, u2)) && v[11] == Steps(n, Xor(u8, u3))
            && v[12] == Steps(n, Xor(u8, u4)) && v[13] == Steps(n, Xor(u8, u5)) && v[14] == Steps(n, Xor(u8, u6))
            && v[15] == Steps(n, Xor(u8, u7))
  {
    var u3, u5, u6 := Xor(u2, u1), Xor(u4, u1), Xor(u4, u2);
    var u7 := Xor(u4, u3);
    StepsOfZero(n);
    SumOfSteps(n, u2, u1, v[2], v[1]);
    SumOfSteps(n, u4, u1, v[4], v[1]);
    SumOfSteps(n, u4, u2, v[4], v[2]);
    SumOfSteps(n, u4, u3, v[4], v[3]);
    SumOfSteps(n, u8, u1, v[8], v[1]);
    SumOfSteps(n, u8, u2, v[8], v[2]);
    SumOfSteps(n, u8, u3, v[8], v[3]);
    SumOfSteps(n, u8, u4, v[8], v[4]);
    SumOfSteps(n, u8, u5, v[8], v[5]);
    SumOfSteps(n, u8, u6, v[8], v[6]);
    SumOfSteps(n, u8, u7, v[8], v[7]);
  }

  /** The sixteen multiples of unit: one hexadecimal digit. */
  ghost predicate Clocked(n: nat, v: seq<bv32>, u: seq<bv32>)
    requires |v| == |u| == 16
  {
    forall c :: 0 <= c < 16 ==> v[c] == Steps(n, u[c])
  }

  function LowDigits(): (u: seq<bv32>)
    ensures |u| == 16
  {
    [0, 1, 2, 3, 4, 5, 6, 7, 8, 9, 10, 11, 12, 13, 14, 15]
  }

  function HighDigits(): (u: seq<bv32>)
    ensures |u| == 16
  {
    [0x00, 0x10, 0x20, 0x30, 0x40, 0x50, 0x60, 0x70, 0x80, 0x90, 0xa0, 0xb0, 0xc0, 0xd0, 0xe0, 0xf0]
  }

  lemma SpannedClocked(n: nat, v: seq<bv32>, u: seq<bv32>)
    requires |v| == |u| == 16 && Spanned(v) && Spanned(u)
    requires v[1] == Steps(n, u[1]) && v[2] == Steps(n, u[2]) && v[4] == Steps(n, u[4]) && v[8] == Steps(n, u[8])
    ensures Clocked(n, v, u)
  {
    SpannedIsClocked(n, v, u[1], u[2], u[4], u[8]);
    var f := seq(16, (c: nat) requires c < 16 => Steps(n, u[c]));
    forall c | 0 <= c < 16
      ensures v[c] == Steps(n, u[c])
    {
      Pick(v, f, c);
    }
  }

  lemma DigitsSpanned()
    ensures Spanned(LowDigits()) && Spanned(HighDigits())
  {}

  lemma LowDigit(x: bv32)
    requires x < 16
    ensures LowDigits()[x as int] == x
  {}

  lemma HighDigit(x: bv32)
    requires x < 16
    ensures HighDigits()[x as int] == x << 4
  {}

  lemma Split(i: bv32)
    requires i >> 4 < 16
    ensures i == Xor(HighDigits()[(i >> 4) as int], LowDigits()[(i & 15) as int])
  {
    LowDigit(i & 15);
    HighDigit(i >> 4);
    SplitPure(i);
  }

  lemma SplitPure(i: bv32)
    ensures i == ((i >> 4) << 4) ^ (i & 15)
  {}

  lemma TranslatedAt(row: seq<bv32>, first: seq<bv32>, c: nat)
    requires c < |row| == |first| == 16
    requires Translated(row, first)
    ensures row[c] == Xor(row[0], first[c])
  {
    Pick(row, seq(16, (i: nat) requires i < 16 => Xor(row[0], first[i])), c);
  }

  lemma RowEntry(row: seq<bv32>, first: seq<bv32>, n: nat, i: bv32)
    requires |row| == |first| == 16 && i >> 4 < 16
    requires Translated(row, first) && Clocked(n, first, LowDigits())
    requires row[0] == Steps(n, HighDigits()[(i >> 4) as int])
    ensures row[(i & 15) as int] == Steps(n, i)
  {
    var c := (i & 15) as int;
    TranslatedAt(row, first, c);
    SumOfDigits(row[0], first[c], n, i);
  }

  lemma SumOfDigits(x: bv32, y: bv32, n: nat, i: bv32)
    requires i >> 4 < 16
    requires x == Steps(n, HighDigits()[(i >> 4) as int]) && y == Steps(n, LowDigits()[(i & 15) as int])
    ensures Xor(x, y) == Steps(n, i)
  {
    Split(i);
    StepsAreLinear(n, HighDigits()[(i >> 4) as int], LowDigits()[(i & 15) as int]);
  }

  /** A table whose rows and first column are sums of their units, and whose eight units are right, is right. */
  lemma TableHolds(t: Table, n: nat)
    requires Spanned(t[0]) && Spanned([t[0][0], t[1][0], t[2][0], t[3][0], t[4][0], t[5][0], t[6][0], t[7][0],
                                       t[8][0], t[9][0], t[10][0], t[11][0], t[12][0], t[13][0], t[14][0], t[15][0]])
    requires t[0][1] == Steps(n, 0x01) && t[0][2] == Steps(n, 0x02) && t[0][4] == Steps(n, 0x04) && t[0][8] == Steps(n, 0x08)
    requires t[1][0] == Steps(n, 0x10) && t[2][0] == Steps(n, 0x20) && t[4][0] == Steps(n, 0x40) && t[8][0] == Steps(n, 0x80)
    requires forall r: nat :: r < 16 ==> Translated(t[r], t[0])
    ensures Holds(t, n)
  {
    hide Steps;
    hide Translated;
    hide Spanned;
    var column := [t[0][0], t[1][0], t[2][0], t[3][0], t[4][0], t[5][0], t[6][0], t[7][0],
                   t[8][0], t[9][0], t[10][0], t[11][0], t[12][0], t[13][0], t[14][0], t[15][0]];
    DigitsSpanned();
    SpannedClocked(n, t[0], LowDigits());
    SpannedClocked(n, column, HighDigits());
    forall i: bv32 | i < 256
      ensures Entry(t, i) == Steps(n, i)
    {
      HighNibble(i);
      var r := (i >> 4) as int;
      FirstOfRow(t, column, r);
      RowEntry(t[r], t[0], n, i);
    }
  }

  lemma HighNibble(i: bv32)
    requires i < 256
    ensures i >> 4 < 16
  {}

  lemma FirstOfRow(t: Table, column: seq<bv32>, r: nat)
    requires r < 16
    requires column == [t[0][0], t[1][0], t[2][0], t[3][0], t[4][0], t[5][0], t[6][0], t[7][0],
                        t[8][0], t[9][0], t[10][0], t[11][0], t[12][0], t[13][0], t[14][0], t[15][0]]
    ensures column[r] == t[r][0]
  {}

  // ---------- the constants of `kByteExtensionTable` ----------

  lemma ByteRows0()
    ensures Translated(ByteRow(0), ByteRow(0))
    ensures Translated(ByteRow(1), ByteRow(0))
    ensures Translated(ByteRow(2), ByteRow(0))
    ensures Translated(ByteRow(3), ByteRow(0))
  {}

  lemma ByteRows4()
    ensures Translated(ByteRow(4), ByteRow(0))
    ensures Translated(ByteRow(5), ByteRow(0))
    ensures Translated(ByteRow(6), ByteRow(0))
    ensures Translated(ByteRow(7), ByteRow(0))
  {}

  lemma ByteRows8()
    ensures Translated(ByteRow(8), ByteRow(0))
    ensures Translated(ByteRow(9), ByteRow(0))
    ensures Translated(ByteRow(10), ByteRow(0))
    ensures Translated(ByteRow(11), ByteRow(0))
  {}

  lemma ByteRows12()
    ensures Translated(ByteRow(12), ByteRow(0))
    ensures Translated(ByteRow(13), ByteRow(0))
    ensures Translated(ByteRow(14), ByteRow(0))
    ensures Translated(ByteRow(15), ByteRow(0))
  {}

  lemma ByteAxes()
    ensures Spanned(ByteRow(0))
    ensures Spanned([ByteRow(0)[0], ByteRow(1)[0], ByteRow(2)[0], ByteRow(3)[0], ByteRow(4)[0], ByteRow(5)[0], ByteRow(6)[0], ByteRow(7)[0],
                     ByteRow(8)[0], ByteRow(9)[0], ByteRow(10)[0], ByteRow(11)[0], ByteRow(12)[0], ByteRow(13)[0], ByteRow(14)[0], ByteRow(15)[0]])
  {}

  lemma ByteUnits()
    ensures ByteRow(0)[1] == Steps(8, 0x01) && ByteRow(0)[2] == Steps(8, 0x02)
    ensures ByteRow(0)[4] == Steps(8, 0x04) && ByteRow(0)[8] == Steps(8, 0x08)
    ensures ByteRow(1)[0] == Steps(8, 0x10) && ByteRow(2)[0] == Steps(8, 0x20)
    ensures ByteRow(4)[0] == Steps(8, 0x40) && ByteRow(8)[0] == Steps(8, 0x80)
  {
    hide Steps;
    Clocked1();
    Clocked2();
    Clocked4();
    Clocked8();
    Clocked16();
    Clocked32();
    Clocked64();
    Clocked128();
  }

  lemma ByteHolds(t: Table)
    requires forall r: nat :: r < 16 ==> t[r] == ByteRow(r)
    ensures Holds(t, 8)
  {
    hide ByteRow;
    hide Steps;
    hide Translated;
    hide Spanned;
    hide Holds;
    ByteRows0();
    ByteRows4();
    ByteRows8();
    ByteRows12();
    ByteAxes();
    ByteUnits();
    TableHolds(t, 8);
  }

  // ---------- the constants of `kStrideExtensionTable0` ----------

  lemma Stride0Rows0()
    ensures Translated(Stride0Row(0), Stride0Row(0))
    ensures Translated(Stride0Row(1), Stride0Row(0))
    ensures Translated(Stride0Row(2), Stride0Row(0))
    ensures Translated(Stride0Row(3), Stride0Row(0))
  {}

  lemma Stride0Rows4()
    ensures Translated(Stride0Row(4), Stride0Row(0))
    ensures Translated(Stride0Row(5), Stride0Row(0))
    ensures Translated(Stride0Row(6), Stride0Row(0))
    ensures Translated(Stride0Row(7), Stride0Row(0))
  {}

  lemma Stride0Rows8()
    ensures Translated(Stride0Row(8), Stride0Row(0))
    ensures Translated(Stride0Row(9), Stride0Row(0))
    ensures Translated(Stride0Row(10), Stride0Row(0))
    ensures Translated(Stride0Row(11), Stride0Row(0))
  {}

  lemma Stride0Rows12()
    ensures Translated(Stride0Row(12), Stride0Row(0))
    ensures Translated(Stride0Row(13), Stride0Row(0))
    ensures Translated(Stride0Row(14), Stride0Row(0))
    ensures Translated(Stride0Row(15), Stride0Row(0))
  {}

  lemma Stride0Axes()
    ensures Spanned(Stride0Row(0))
    ensures Spanned([Stride0Row(0)[0], Stride0Row(1)[0], Stride0Row(2)[0], Stride0Row(3)[0], Stride0Row(4)[0], Stride0Row(5)[0], Stride0Row(6)[0], Stride0Row(7)[0],
                     Stride0Row(8)[0], Stride0Row(9)[0], Stride0Row(10)[0], Stride0Row(11)[0], Stride0Row(12)[0], Stride0Row(13)[0], Stride0Row(14)[0], Stride0Row(15)[0]])
  {}

  lemma Stride0Units()
    ensures Stride0Row(0)[1] == Steps(104, 0x01) && Stride0Row(0)[2] == Steps(104, 0x02)
    ensures Stride0Row(0)[4] == Steps(104, 0x04) && Stride0Row(0)[8] == Steps(104, 0x08)
    ensures Stride0Row(1)[0] == Steps(104, 0x10) && Stride0Row(2)[0] == Steps(104, 0x20)
    ensures Stride0Row(4)[0] == Steps(104, 0x40) && Stride0Row(8)[0] == Steps(104, 0x80)
  {
    hide Steps;
    Clocked1();
    Clocked2();
    Clocked4();
    Clocked8();
    Clocked16();
    Clocked32();
    Clocked64();
    Clocked128();
  }

  lemma Stride0Holds(t: Table)
    requires forall r: nat :: r < 16 ==> t[r] == Stride0Row(r)
    ensures Holds(t, 104)
  {
    hide Stride0Row;
    hide Steps;
    hide Translated;
    hide Spanned;
    hide Holds;
    Stride0Rows0();
    Stride0Rows4();
    Stride0Rows8();
    Stride0Rows12();
    Stride0Axes();
    Stride0Units();
    TableHolds(t, 104);
  }

  // ---------- the constants of `kStrideExtensionTable1` ----------

  lemma Stride1Rows0()
    ensures Translated(Stride1Row(0), Stride1Row(0))
    ensures Translated(Stride1Row(1), Stride1Row(0))
    ensures Translated(Stride1Row(2), Stride1Row(0))
    ensures Translated(Stride1Row(3), Stride1Row(0))
  {}

  lemma Stride1Rows4()
    ensures Translated(Stride1Row(4), Stride1Row(0))
    ensures Translated(Stride1Row(5), Stride1Row(0))
    ensures Translated(Stride1Row(6), Stride1Row(0))
    ensures Translated(Stride1Row(7), Stride1Row(0))
  {}

  lemma Stride1Rows8()
    ensures Translated(Stride1Row(8), Stride1Row(0))
    ensures Translated(Stride1Row(9), Stride1Row(0))
    ensures Translated(Stride1Row(10), Stride1Row(0))
    ensures Translated(Stride1Row(11), Stride1Row(0))
  {}

  lemma Stride1Rows12()
    ensures Translated(Stride1Row(12), Stride1Row(0))
    ensures Translated(Stride1Row(13), Stride1Row(0))
    ensures Translated(Stride1Row(14), Stride1Row(0))
    ensures Translated(Stride1Row(15), Stride1Row(0))
  {}

  lemma Stride1Axes()
    ensures Spanned(Stride1Row(0))
    ensures Spanned([Stride1Row(0)[0], Stride1Row(1)[0], Stride1Row(2)[0], Stride1Row(3)[0], Stride1Row(4)[0], Stride1Row(5)[0], Stride1Row(6)[0], Stride1Row(7)[0],
                     Stride1Row(8)[0], Stride1Row(9)[0], Stride1Row(10)[0], Stride1Row(11)[0], Stride1Row(12)[0], Stride1Row(13)[0], Stride1Row(14)[0], Stride1Row(15)[0]])
  {}

  lemma Stride1Units()
    ensures Stride1Row(0)[1] == Steps(112, 0x01) && Stride1Row(0)[2] == Steps(112, 0x02)
    ensures Stride1Row(0)[4] == Steps(112, 0x04) && Stride1Row(0)[8] == Steps(112, 0x08)
    ensures Stride1Row(1)[0] == Steps(112, 0x10) && Stride1Row(2)[0] == Steps(112, 0x20)
    ensures Stride1Row(4)[0] == Steps(112, 0x40) && Stride1Row(8)[0] == Steps(112, 0x80)
  {
    hide Steps;
    Clocked1();
    Clocked2();
    Clocked4();
    Clocked8();
    Clocked16();
    Clocked32();
    Clocked64();
    Clocked128();
  }

  lemma Stride1Holds(t: Table)
    requires forall r: nat :: r < 16 ==> t[r] == Stride1Row(r)
    ensures Holds(t, 112)
  {
    hide Stride1Row;
    hide Steps;
    hide Translated;
    hide Spanned;
    hide Holds;
    Stride1Rows0();
    Stride1Rows4();
    Stride1Rows8();
    Stride1Rows12();
    Stride1Axes();
    Stride1Units();
    TableHolds(t, 112);
  }

  // ---------- the constants of `kStrideExtensionTable2` ----------

  lemma Stride2Rows0()
    ensures Translated(Stride2Row(0), Stride2Row(0))
    ensures Translated(Stride2Row(1), Stride2Row(0))
    ensures Translated(Stride2Row(2), Stride2Row(0))
    ensures Translated(Stride2Row(3), Stride2Row(0))
  {}

  lemma Stride2Rows4()
    ensures Translated(Stride2Row(4), Stride2Row(0))
    ensures Translated(Stride2Row(5), Stride2Row(0))
    ensures Translated(Stride2Row(6), Stride2Row(0))
    ensures Translated(Stride2Row(7), Stride2Row(0))
  {}

  lemma Stride2Rows8()
    ensures Translated(Stride2Row(8), Stride2Row(0))
    ensures Translated(Stride2Row(9), Stride2Row(0))
    ensures Translated(Stride2Row(10), Stride2Row(0))
    ensures Translated(Stride2Row(11), Stride2Row(0))
  {}

  lemma Stride2Rows12()
    ensures Translated(Stride2Row(12), Stride2Row(0))
    ensures Translated(Stride2Row(13), Stride2Row(0))
    ensures Translated(Stride2Row(14), Stride2Row(0))
    ensures Translated(Stride2Row(15), Stride2Row(0))
  {}

  lemma Stride2Axes()
    ensures Spanned(Stride2Row(0))
    ensures Spanned([Stride2Row(0)[0], Stride2Row(1)[0], Stride2Row(2)[0], Stride2Row(3)[0], Stride2Row(4)[0], Stride2Row(5)[0], Stride2Row(6)[0], Stride2Row(7)[0],
                     Stride2Row(8)[0], Stride2Row(9)[0], Stride2Row(10)[0], Stride2Row(11)[0], Stride2Row(12)[0], Stride2Row(13)[0], Stride2Row(14)[0], Stride2Row(15)[0]])
  {}

  lemma Stride2Units()
    ensures Stride2Row(0)[1] == Steps(120, 0x01) && Stride2Row(0)[2] == Steps(120, 0x02)
    ensures Stride2Row(0)[4] == Steps(120, 0x04) && Stride2Row(0)[8] == Steps(120, 0x08)
    ensures Stride2Row(1)[0] == Steps(120, 0x10) && Stride2Row(2)[0] == Steps(120, 0x20)
    ensures Stride2Row(4)[0] == Steps(120, 0x40) && Stride2Row(8)[0] == Steps(120, 0x80)
  {
    hide Steps;
    Clocked1();
    Clocked2();
    Clocked4();
    Clocked8();
    Clocked16();
    Clocked32();
    Clocked64();
    Clocked128();
  }

  lemma Stride2Holds(t: Table)
    requires forall r: nat :: r < 16 ==> t[r] == Stride2Row(r)
    ensures Holds(t, 120)
  {
    hide Stride2Row;
    hide Steps;
    hide Translated;
    hide Spanned;
    hide Holds;
    Stride2Rows0();
    Stride2Rows4();
    Stride2Rows8();
    Stride2Rows12();
    Stride2Axes();
    Stride2Units();
    TableHolds(t, 120);
  }

  // ---------- the constants of `kStrideExtensionTable3` ----------

  lemma Stride3Rows0()
    ensures Translated(Stride3Row(0), Stride3Row(0))
    ensures Translated(Stride3Row(1), Stride3Row(0))
    ensures Translated(Stride3Row(2), Stride3Row(0))
    ensures Translated(Stride3Row(3), Stride3Row(0))
  {}

  lemma Stride3Rows4()
    ensures Translated(Stride3Row(4), Stride3Row(0))
    ensures Translated(Stride3Row(5), Stride3Row(0))
    ensures Translated(Stride3Row(6), Stride3Row(0))
    ensures Translated(Stride3Row(7), Stride3Row(0))
  {}

  lemma Stride3Rows8()
    ensures Translated(Stride3Row(8), Stride3Row(0))
    ensures Translated(Stride3Row(9), Stride3Row(0))
    ensures Translated(Stride3Row(10), Stride3Row(0))
    ensures Translated(Stride3Row(11), Stride3Row(0))
  {}

  lemma Stride3Rows12()
    ensures Translated(Stride3Row(12), Stride3Row(0))
    ensures Translated(Stride3Row(13), Stride3Row(0))
    ensures Translated(Stride3Row(14), Stride3Row(0))
    ensures Translated(Stride3Row(15), Stride3Row(0))
  {}

  lemma Stride3Axes()
    ensures Spanned(Stride3Row(0))
    ensures Spanned([Stride3Row(0)[0], Stride3Row(1)[0], Stride3Row(2)[0], Stride3Row(3)[0], Stride3Row(4)[0], Stride3Row(5)[0], Stride3Row(6)[0], Stride3Row(7)[0],
                     Stride3Row(8)[0], Stride3Row(9)[0], Stride3Row(10)[0], Stride3Row(11)[0], Stride3Row(12)[0], Stride3Row(13)[0], Stride3Row(14)[0], Stride3Row(15)[0]])
  {}

  lemma Stride3Units()
    ensures Stride3Row(0)[1] == Steps(128, 0x01) && Stride3Row(0)[2] == Steps(128, 0x02)
    ensures Stride3Row(0)[4] == Steps(128, 0x04) && Stride3Row(0)[8] == Steps(128, 0x08)
    ensures Stride3Row(1)[0] == Steps(128, 0x10) && Stride3Row(2)[0] == Steps(128, 0x20)
    ensures Stride3Row(4)[0] == Steps(128, 0x40) && Stride3Row(8)[0] == Steps(128, 0x80)
  {
    hide Steps;
    Clocked1();
    Clocked2();
    Clocked4();
    Clocked8();
    Clocked16();
    Clocked32();
    Clocked64();
    Clocked128();
  }

  lemma Stride3Holds(t: Table)
    requires forall r: nat :: r < 16 ==> t[r] == Stride3Row(r)
    ensures Holds(t, 128)
  {
    hide Stride3Row;
    hide Steps;
    hide Translated;
    hide Spanned;
    hide Holds;
    Stride3Rows0();
    Stride3Rows4();
    Stride3Rows8();
    Stride3Rows12();
    Stride3Axes();
    Stride3Units();
    TableHolds(t, 128);
  }

  /** Every constant of the five tables is right. */
  lemma SourceTablesAreCorrect()
    ensures Correct(SourceTables())
  {
    var t := SourceTables();
    ByteHolds(t.byteExtension);
    Stride0Holds(t.stride0);
    Stride1Holds(t.stride1);
    Stride2Holds(t.stride2);
    Stride3Holds(t.stride3);
  }
}
