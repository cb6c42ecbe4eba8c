/**
 * The sine table of MD5: the entries are the ones section 3.4 of RFC 1321 defines, the integer part
 * of 2^32 times the absolute value of the sine of 1 to 64 radians.
 */
module SineTable {
  import opened Bits
  import opened Md5

  function Factorial(n: nat): nat {
    if n == 0 then 1 else n * Factorial(n - 1)
  }

  /**
   * The Taylor series of the sine (`first` being 1) or the cosine (0) at 1, cut after some terms
   * `1/first! - 1/(first + 2)! + ...`, times the last factorial.
   */
  function PartialSum(first: nat, terms: nat): int
    requires terms > 0
  {
    if terms == 1 then 1
    else
      var last := first + 2 * (terms - 1);
      PartialSum(first, terms - 1) * ((last - 1) * last) + (if terms % 2 == 0 then -1 else 1)
  }

  /** The series alternates, so two neighbouring partial sums enclose its value. */
  predicate Enclosed(x: real, first: nat) {
    && PartialSum(first, 16) as real <= x * Factorial(first + 30) as real
    && x * Factorial(first + 32) as real <= PartialSum(first, 17) as real
  }

  /** Multiplication, for proofs that should treat products as unknowns. */
  function Times(x: real, y: real): real {
    x * y
  }

  /** Sine and cosine of `n + 1` radians from those of 1, by the addition theorems. */
  function Sin(s1: real, c1: real, n: nat): real {
    if n == 0 then s1 else Times(Sin(s1, c1, n - 1), c1) + Times(Cos(s1, c1, n - 1), s1)
  }

  function Cos(s1: real, c1: real, n: nat): real {
    if n == 0 then c1 else Times(Cos(s1, c1, n - 1), c1) - Times(Sin(s1, c1, n - 1), s1)
  }

  function Abs(x: real): real {
    if x < 0.0 then -x else x
  }

  // ---------------------------------------------------------------------------
  // In fixed point
  // ---------------------------------------------------------------------------

  const UNIT: int := 1_0000000000_0000000000_0000000000
  const SINE: int := 8414709848_0789650665_2502321630
  const MARGIN: int := 10000000_0000000000_0000000000
  const COSINE: int := 5403023058_6813971740_0936607442

  /** Thirty digits of the sine and cosine of `n + 1`. */
  function Angle(n: nat): (int, int) {
    match n
    case 0 => (8414709848_0789650665_2502321630, 5403023058_6813971740_0936607442)
    case 1 => (9092974268_2568169539_6019865909, -4161468365_4714238699_7568229502)
    case 2 => (1411200080_5986722210_0744802804, -9899924966_0044545727_1572794729)
    case 3 => (-7568024953_0792825137_2639094512, -6536436208_6361191463_9168183093)
    case 4 => (-9589242746_6313846889_3154406152, 2836621854_6322626446_6639171516)
    case 5 => (-2794154981_9892587281_1555446607, 9601702866_5036602054_5652297920)
    case 6 => (6569865987_1878909039_6999091593, 7539022543_4330463814_1197521712)
    case 7 => (9893582466_2338177780_8123598238, -1455000338_0861352586_8841381836)
    case 8 => (4121184852_4175656975_6272566343, -9111302618_8467698836_8294711178)
    case 9 => (-5440211108_8936981340_4747661854, -8390715290_7645245225_8863947814)
    case 10 => (-9999902065_5070345705_1564899018, 44256979_8805078574_8355024732)
    case 11 => (-5365729180_0043497166_5374228231, 8438539587_3249210465_3955293171)
    case 12 => (4201670368_2664092186_8955035481, 9074467814_5019621385_2686155462)
    case 13 => (9906073556_9487030787_5354804005, 1367372182_0783359424_8928876660)
    case 14 => (6502878401_5711686582_9740270972, -7596879128_5882127384_8146403632)
    case 15 => (-2879033166_6506529478_4456248228, -9576594803_2338464189_9637232636)
    case 16 => (-9613974918_7955685726_1636944861, -2751633380_5159692222_0342656535)
    case 17 => (-7509872467_7167610375_0156084428, 6603167082_4408014481_6100044792)
    case 18 => (1498772096_6295232975_4239321250, 9887046181_8666925289_8352856532)
    case 19 => (9129452507_2762765437_6099983837, 4080820618_1339198606_2267860908)
    case 20 => (8366556385_3605603186_6480770222, -5477292602_2426842138_4271132955)
    case 21 => (-88513092_9040387592_1690256833, -9999608263_9463712645_4174739195)
    case 22 => (-8462204041_7517063524_1326271900, -5328330203_3339755521_5757657140)
    case 23 => (-9055783620_0662384513_5793358504, 4241790073_3699697593_7050944767)
    case 24 => (-1323517500_9777302890_2005093864, 9912028118_6347359808_3294718799)
    case 25 => (7625584504_7960273751_5823293200, 6469193223_2864034272_1383901862)
    case 26 => (9563759284_0450301343_2340558303, -2921388087_3383619337_1404835849)
    case 27 => (2709057883_0786901998_6343092754, -9626058663_1356660197_5453057883)
    case 28 => (-6636338842_1296750215_1173340061, -7480575296_8900035176_5191792225)
    case 29 => (-9880316240_9286178998_7748907269, 1542514498_8758405071_8662146630)
    case 30 => (-4040376453_2306500604_8770899637, 9147423578_0453127896_2435826137)
    case 31 => (5514266812_4169055066_1558166849, 8342233605_0651027221_5526470839)
    case 32 => (9999118601_0726714572_8084376682, -132767472_2305947891_5220031392)
    case 33 => (5290826861_2002382083_2487133999, -8485702747_8460518659_9972087702)
    case 34 => (-4281826694_9615100440_6752891756, -9036922050_9150675984_7304572050)
    case 35 => (-9917788534_4311573683_5288968818, -1279636896_2740468102_8327977887)
    case 36 => (-6435381333_5699946068_5670019045, 7654140519_4534335649_1081292897)
    case 37 => (2963685787_0938531739_2296649864, 9550736440_4729485758_6536235371)
    case 38 => (9637953862_8408775326_0664971744, 2666429323_5993725152_6825794943)
    case 39 => (7451131604_7934878698_7709402596, -6669380616_5226184438_4092781933)
    case 40 => (-1586226688_0470898710_3317011952, -9873392775_2382645822_8825133380)
    case 41 => (-9165215479_1563378589_8989158052, -3999853149_8835129395_4707337139)
    case 42 => (-8317747426_2859828820_9578256250, 5551133015_2062567704_4879441968)
    case 43 => (177019251_0541357780_7954053194, 9998433086_4769122006_9009016604)
    case 44 => (8509035245_3411842486_2379677604, 5253219888_1772969604_7464404781)
    case 45 => (9017883476_4880918503_3293039178, -4321779448_8477829495_2776524145)
    case 46 => (1235731227_4522400406_1529348051, -9923354691_5092871827_9752420314)
    case 47 => (-7682546613_2366679904_4965664839, -6401443394_6919973131_2941419346)
    case 48 => (-9537526527_5947181836_0423558544, 3005925437_4363708368_7026000510)
    case 49 => (-2623748537_0392878591_4393646872, 9649660284_9211327406_8957058874)
    case 50 => (6702291758_4337473449_4345074949, 7421541968_1378253946_7377175687)
    case 51 => (9866275920_4048529658_7568934392, -1629907807_9570548100_3329815452)
    case 52 => (3959251501_8183418150_3386139215, -9182827862_1211889119_9726323193)
    case 53 => (-5587890488_5161624581_7871318972, -8293098328_6315014772_7850042434)
    case 54 => (-9997551733_5861983659_8631683202, 221267562_6195573456_3564262182)
    case 55 => (-5215510020_8691188018_7410021458, 8532201077_2258411396_9681233898)
    case 56 => (4361647552_4782495908_0534793143, 8998668269_6919378650_3000404603)
    case 57 => (9928726480_8453711816_5088164385, 1191801354_4881928543_5843610725)
    case 58 => (6367380071_3913788077_1233492318, -7710802229_7584522938_7435296365)
    case 59 => (-3048106211_0221670562_5649465502, -9524129804_1515629269_3816595937)
    case 60 => (-9661177700_0839294701_8287989446, -2581016359_3826744570_1207347102)
    case 61 => (-7391806966_4922286727_6016933694, 6735071623_2358625288_7833405952)
    case 62 => (1673557003_0280692152_7838370320, 9858965815_8254969743_8635756000)
    case _ => (9200260381_9679068335_1536603748, 3918572304_2955000516_1709858456)
  }

  /** `(s', c')` is `(s, c)` turned by one radian, up to a unit. */
  predicate Turned(s: int, c: int, s': int, c': int) {
    && -UNIT <= s * COSINE + c * SINE - s' * UNIT <= UNIT
    && -UNIT <= c * COSINE - s * SINE - c' * UNIT <= UNIT
  }

  /** `|s| * 2^32` lies between `t` and `t + 1`, not near either. */
  predicate Between(s: int, t: int) {
    var size := (if s < 0 then -s else s) * 0x1_0000_0000;
    t * UNIT + MARGIN < size < (t + 1) * UNIT - MARGIN
  }

  predicate Small(x: int) {
    -UNIT <= x <= UNIT
  }

  predicate Entry(n: nat)
    requires n < 64
  {
    && Between(Angle(n).0, T(n)) && Small(Angle(n).0) && Small(Angle(n).1)
    && (n < 63 ==> Turned(Angle(n).0, Angle(n).1, Angle(n + 1).0, Angle(n + 1).1))
  }

  lemma Entries0(n: nat)
    requires 0 <= n < 4
    ensures Entry(n)
  {
  }

  lemma Entries4(n: nat)
    requires 4 <= n < 8
    ensures Entry(n)
  {
  }

  lemma Entries8(n: nat)
    requires 8 <= n < 12
    ensures Entry(n)
  {
  }

  lemma Entries12(n: nat)
    requires 12 <= n < 16
    ensures Entry(n)
  {
  }

  lemma Entries16(n: nat)
    requires 16 <= n < 20
    ensures Entry(n)
  {
  }

  lemma Entries20(n: nat)
    requires 20 <= n < 24
    ensures Entry(n)
  {
  }

  lemma Entries24(n: nat)
    requires 24 <= n < 28
    ensures Entry(n)
  {
  }

  lemma Entries28(n: nat)
    requires 28 <= n < 32
    ensures Entry(n)
  {
  }

  lemma Entries32(n: nat)
    requires 32 <= n < 36
    ensures Entry(n)
  {
  }

  lemma Entries36(n: nat)
    requires 36 <= n < 40
    ensures Entry(n)
  {
  }

  lemma Entries40(n: nat)
    requires 40 <= n < 44
    ensures Entry(n)
  {
  }

  lemma Entries44(n: nat)
    requires 44 <= n < 48
    ensures Entry(n)
  {
  }

  lemma Entries48(n: nat)
    requires 48 <= n < 52
    ensures Entry(n)
  {
  }

  lemma Entries52(n: nat)
    requires 52 <= n < 56
    ensures Entry(n)
  {
  }

  lemma Entries56(n: nat)
    requires 56 <= n < 60
    ensures Entry(n)
  {
  }

  lemma Entries60(n: nat)
    requires 60 <= n < 64
    ensures Entry(n)
  {
  }

  lemma EntryHolds(n: nat)
    requires n < 64
    ensures Entry(n)
  {
    hide Entry;
    if n < 4 {
      Entries0(n);
    } else if n < 8 {
      Entries4(n);
    } else if n < 12 {
      Entries8(n);
    } else if n < 16 {
      Entries12(n);
    } else if n < 20 {
      Entries16(n);
    } else if n < 24 {
      Entries20(n);
    } else if n < 28 {
      Entries24(n);
    } else if n < 32 {
      Entries28(n);
    } else if n < 36 {
      Entries32(n);
    } else if n < 40 {
      Entries36(n);
    } else if n < 44 {
      Entries40(n);
    } else if n < 48 {
      Entries44(n);
    } else if n < 52 {
      Entries48(n);
    } else if n < 56 {
      Entries52(n);
    } else if n < 60 {
      Entries56(n);
    } else {
      Entries60(n);
    }
  }

  // ---------------------------------------------------------------------------
  // The error
  // ---------------------------------------------------------------------------

  /** `n` stands for `x` in units of `1 / u`, up to `e`. */
  predicate NearBy(u: real, x: real, n: real, e: real) {
    -e <= x * u - n <= e
  }

  predicate Near(x: real, n: int, e: real) {
    NearBy(UNIT as real, x, n as real, e)
  }

  lemma SineSums()
    ensures PartialSum(1, 16) == 6919_2801402475_3504798508_9497608089
    ensures PartialSum(1, 17) == 7306759_8281013970_1067225450_9474141985
  {
    assert PartialSum(1, 4) == 4241;
    assert PartialSum(1, 7) == 5239857325;
    assert PartialSum(1, 10) == 10236082_2438075317;
    assert PartialSum(1, 13) == 130522_3319072385_9821607001;
    assert PartialSum(1, 15) == 7_4400861723_0917747095_1709137213;
  }

  lemma CosineSums()
    ensures PartialSum(0, 16) == 143_3167317946_4523883873_3428957149
    ensures PartialSum(0, 17) == 142170_1979402880_7692802356_1525491809
  {
    assert PartialSum(0, 4) == 389;
    assert PartialSum(0, 7) == 258805669;
    assert PartialSum(0, 10) == 345921_7276234385;
    assert PartialSum(0, 13) == 3352_2970212867_1164345673;
    assert PartialSum(0, 15) == 1647318756_2602901015_9463711445;
  }

  lemma Factorials()
    ensures Factorial(30) == 265_2528598121_9105863630_8480000000
    ensures Factorial(31) == 8222_8386541779_2281772556_2880000000
    ensures Factorial(32) == 263130_8369336935_3016721801_2160000000
    ensures Factorial(33) == 8683317_6188118864_9551819440_1280000000
  {
    assert Factorial(6) == 720;
    assert Factorial(12) == 479001600;
    assert Factorial(18) == 640237_3705728000;
    assert Factorial(24) == 6204_4840173323_9439360000;
    assert Factorial(28) == 3048883446_1171386050_1504000000;
  }

  /** The two literals are the sine and cosine of 1. */
  lemma FirstAngle(s1: real, c1: real)
    requires Enclosed(s1, 1) && Enclosed(c1, 0)
    ensures Near(s1, SINE, 1.0) && Near(c1, COSINE, 1.0)
  {
    SineSums();
    CosineSums();
    Factorials();
    hide Factorial, PartialSum;
  }

  /** How far the fixed-point angles may be off. */
  function Error(n: nat): real {
    if n == 0 then 50.0 else 1.5 * Error(n - 1)
  }

  lemma {:induction false} ErrorGrows(n: nat)
    ensures Error(n) >= 50.0 && Error(n) <= Error(n + 1)
  {
    if n > 0 {
      ErrorGrows(n - 1);
    }
  }

  lemma {:induction false} ErrorMonotone(m: nat, n: nat)
    requires m <= n
    ensures Error(m) <= Error(n)
  {
    if m < n {
      ErrorMonotone(m, n - 1);
      ErrorGrows(n - 1);
    }
  }

  lemma EightTurns(n: nat)
    ensures Error(n + 8) <= 26.0 * Error(n)
  {
    ErrorGrows(n);
    assert Error(n + 2) == 2.25 * Error(n);
    assert Error(n + 4) == 2.25 * Error(n + 2);
    assert Error(n + 6) == 2.25 * Error(n + 4);
    assert Error(n + 8) == 2.25 * Error(n + 6);
  }

  lemma ErrorBound(n: nat)
    requires n < 64
    ensures 50.0 <= Error(n) <= 1_0000000000_0000.0
  {
    ErrorGrows(n);
    ErrorMonotone(n, 64);
    EightTurns(0);
    EightTurns(8);
    EightTurns(16);
    EightTurns(24);
    EightTurns(32);
    EightTurns(40);
    EightTurns(48);
    EightTurns(56);
    hide Error;
    assert Error(0) == 50.0 by { FirstError(); }
  }

  lemma FirstError()
    ensures Error(0) == 50.0
  {
  }

  lemma Scaled(a: real, e: real, x: real, size: real)
    requires -e <= a <= e && -size <= x <= size
    ensures -(e * size) <= a * x <= e * size
  {
    assert (e - a) * (size + x) >= 0.0 && (e + a) * (size - x) >= 0.0;
    assert (e - a) * (size - x) >= 0.0 && (e + a) * (size + x) >= 0.0;
  }

  lemma Distribute(n: real, a: real, n1: real, q: real)
    ensures (n + a) * (n1 + q) == n * n1 + a * n1 + q * (n + a)
  {
  }

  /** Products of values and of what stands for them. */
  lemma ProductError(u: real, x: real, n: real, e: real, x1: real, n1: real)
    requires NearBy(u, x, n, e) && NearBy(u, x1, n1, 1.0) && -u <= n <= u && 0.0 <= n1 && 0.0 <= e <= u
    ensures var size := Times(e, n1) + 2.0 * u;
      -size <= Times(Times(x, u), Times(x1, u)) - Times(n, n1) <= size
  {
    var y, y1 := x * u, x1 * u;
    var a, q := y - n, y1 - n1;
    assert -e <= a <= e && -1.0 <= q <= 1.0;
    hide NearBy;
    Distribute(n, a, n1, q);
    Scaled(a, e, n1, n1);
    Scaled(q, 1.0, y, 2.0 * u);
  }

  lemma Unscale(u: real, x: real, n: real, e: real)
    requires u > 0.0 && -Times(e, u) <= Times(Times(x, u), u) - Times(n, u) <= Times(e, u)
    ensures NearBy(u, x, n, e)
  {
    var d := x * u - n;
    assert x * u * u - n * u == d * u;
    assert d > e ==> d * u > e * u;
    assert d < -e ==> d * u < -e * u;
  }

  lemma Squared(u: real, x: real, x1: real, y: real, y1: real)
    ensures var p, q := Times(Times(x, u), Times(x1, u)), Times(Times(y, u), Times(y1, u));
      && Times(Times(Times(x, x1) + Times(y, y1), u), u) == p + q
      && Times(Times(Times(x, x1) - Times(y, y1), u), u) == p - q
  {
  }

  /** What the errors of the four factors and of the turn add up to. */
  lemma Total(u: real, e: real, n1: real, m1: real)
    requires u > 0.0 && 0.0 <= n1 && 0.0 <= m1 && 50.0 <= e && n1 + m1 <= 1.4 * u
    ensures Times(e, n1) + 2.0 * u + (Times(e, m1) + 2.0 * u) + u <= Times(1.5 * e, u)
  {
    assert e * n1 + e * m1 == e * (n1 + m1);
    assert e * (1.4 * u - (n1 + m1)) >= 0.0;
    assert (e - 50.0) * u >= 0.0;
  }

  /** The sine (or the cosine) of one more radian. */
  lemma SumError(u: real, x: real, n: real, y: real, m: real, e: real, x1: real, n1: real, y1: real, m1: real,
                 minus: bool, r: real)
    requires u > 0.0 && NearBy(u, x, n, e) && NearBy(u, y, m, e) && NearBy(u, x1, n1, 1.0) && NearBy(u, y1, m1, 1.0)
    requires -u <= n <= u && -u <= m <= u && 0.0 <= n1 && 0.0 <= m1 && 50.0 <= e <= u && n1 + m1 <= 1.4 * u
    requires var p, q := Times(n, n1), Times(m, m1);
      -u <= (if minus then p - q else p + q) - Times(r, u) <= u
    ensures var p, q := Times(x, x1), Times(y, y1);
      NearBy(u, if minus then p - q else p + q, r, 1.5 * e)
  {
    hide NearBy, Times;
    ProductError(u, x, n, e, x1, n1);
    ProductError(u, y, m, e, y1, m1);
    Squared(u, x, x1, y, y1);
    Total(u, e, n1, m1);
    var p, q := Times(x, x1), Times(y, y1);
    Unscale(u, if minus then p - q else p + q, r, 1.5 * e);
  }

  /** One turn makes the error half as large again at most. */
  lemma TurnError(s: real, c: real, s1: real, c1: real, n: int, m: int, n': int, m': int, e: real)
    requires Near(s, n, e) && Near(c, m, e) && Near(s1, SINE, 1.0) && Near(c1, COSINE, 1.0)
    requires Small(n) && Small(m) && Turned(n, m, n', m') && 50.0 <= e <= UNIT as real
    ensures Near(Times(s, c1) + Times(c, s1), n', 1.5 * e) && Near(Times(c, c1) - Times(s, s1), m', 1.5 * e)
  {
    RealTurn(n, m, n', COSINE, SINE, UNIT);
    RealTurn(m, -n, m', COSINE, SINE, UNIT);
    Widths();
    hide NearBy;
    var u, sine, cosine := UNIT as real, SINE as real, COSINE as real;
    SumError(u, s, n as real, c, m as real, e, c1, cosine, s1, sine, false, n' as real);
    SumError(u, c, m as real, s, n as real, e, c1, cosine, s1, sine, true, m' as real);
  }

  lemma Widths()
    ensures UNIT > 0 && SINE >= 0 && COSINE >= 0 && (SINE + COSINE) as real <= 1.4 * UNIT as real
  {
  }

  lemma RealTurn(n: int, m: int, r: int, cosine: int, sine: int, unit: int)
    requires -unit <= n * cosine + m * sine - r * unit <= unit
    ensures var u := unit as real;
      -u <= n as real * cosine as real + m as real * sine as real - r as real * u <= u
  {
    Cast(n, cosine);
    Cast(m, sine);
    Cast(r, unit);
  }

  lemma Cast(x: int, y: int)
    ensures (x * y) as real == x as real * y as real
  {
  }

  lemma {:induction false} AngleError(s1: real, c1: real, n: nat)
    requires Enclosed(s1, 1) && Enclosed(c1, 0) && n < 64
    ensures Near(Sin(s1, c1, n), Angle(n).0, Error(n)) && Near(Cos(s1, c1, n), Angle(n).1, Error(n))
  {
    FirstAngle(s1, c1);
    hide Enclosed, Angle, Sin, Cos, Times, Error, Near;
    TurnStep(s1, c1, n);
    if n == 0 {
      FirstDigits();
      assert Near(s1, SINE, 50.0) && Near(c1, COSINE, 50.0) by { Wider(s1, SINE); Wider(c1, COSINE); }
    } else {
      AngleError(s1, c1, n - 1);
      ErrorBound(n - 1);
      EntryHolds(n - 1);
      var a, b := Angle(n - 1), Angle(n);
      TurnError(Sin(s1, c1, n - 1), Cos(s1, c1, n - 1), s1, c1, a.0, a.1, b.0, b.1, Error(n - 1));
    }
  }

  lemma Wider(x: real, n: int)
    requires Near(x, n, 1.0)
    ensures Near(x, n, 50.0)
  {
  }

  lemma TurnStep(s1: real, c1: real, n: nat)
    ensures n == 0 ==> Sin(s1, c1, n) == s1 && Cos(s1, c1, n) == c1 && Error(n) == 50.0
    ensures n > 0 ==> var s, c := Sin(s1, c1, n - 1), Cos(s1, c1, n - 1);
      && Sin(s1, c1, n) == Times(s, c1) + Times(c, s1) && Cos(s1, c1, n) == Times(c, c1) - Times(s, s1)
      && Error(n) == 1.5 * Error(n - 1)
  {
    hide Times;
  }

  lemma FirstDigits()
    ensures Angle(0) == (SINE, COSINE)
  {
  }

  /**
   * `T(n)`, the `n + 1`st entry, is the integer part of 4294967296 times `abs(sin(n + 1))`, for any
   * values of the sine and cosine of 1 between those partial sums.
   */
  lemma SineTable(s1: real, c1: real, n: nat)
    requires Enclosed(s1, 1) && Enclosed(c1, 0) && n < 64
    ensures T(n) == (4294967296.0 * Abs(Sin(s1, c1, n))).Floor
  {
    AngleError(s1, c1, n);
    ErrorBound(n);
    EntryHolds(n);
    hide Enclosed, Angle, Sin, Error, T;
    var x, u := Sin(s1, c1, n), UNIT as real;
    var size := Abs(x) * u * 4294967296.0;
    assert T(n) as real * u < size < (T(n) + 1) as real * u;
    Cancel(T(n) as real, 4294967296.0 * Abs(x), u);
    Cancel(4294967296.0 * Abs(x), (T(n) + 1) as real, u);
  }

  lemma Cancel(x: real, y: real, u: real)
    requires u > 0.0 && x * u < y * u
    ensures x < y
  {
    assert (y - x) * u > 0.0;
  }
}
