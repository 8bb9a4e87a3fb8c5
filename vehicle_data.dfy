/**
 * The catalog transform: every hand-entered vehicle record becomes a display
 * record with the price written as Brazilian currency, a badge saying how far
 * below the FIPE reference price it is, the mileage written with its unit, and
 * a fixed list of three specs.
 */
module VehicleData {
  import opened Optional
  import opened NumberFormat
  import Modular

  /** A vehicle as the operator enters it. */
  datatype RawVehicle = RawVehicle(
    id: string,
    name: string,
    brand: string,
    year: string,
    price: nat,          // asking price, whole reais
    fipe: int,           // FIPE reference price, whole reais
    km: nat,             // odometer reading
    transmission: string,
    fuel: string,
    image: string,
    description: string,
    sold: bool)

  /** A vehicle as the site displays it. */
  datatype Vehicle = Vehicle(
    id: string,
    name: string,
    brand: string,
    rawPrice: Option<int>,
    price: string,
    fipeDifference: string,
    km: string,
    transmission: string,
    fuel: string,
    image: string,
    description: string,
    specs: seq<string>,
    sold: Option<bool>)

  /** The space the pt-BR currency format puts after the symbol (a no-break space). */
  const CurrencySpace: char := '\U{00A0}'
  const CurrencyPrefix: string := "R$" + [CurrencySpace]
  const KmSuffix: string := " km"
  const PercentSuffix: string := "% ABAIXO FIPE"
  const FallbackLabel: string := "PREÇO DE REPASSE"
  const BrandSeparator: string := " • "

  /** The price in Brazilian currency with no decimals, as in "R$ 100.000". */
  function FormatPrice(price: nat): (s: string)
    ensures |s| > |CurrencyPrefix| && s[..|CurrencyPrefix|] == CurrencyPrefix
    ensures s[|CurrencyPrefix|..] == Grouped(price)
    ensures WellGrouped(s[|CurrencyPrefix|..])
    ensures ParseDecimal(StripDots(s[|CurrencyPrefix|..])) == price
  {
    var g := Grouped(price);
    assert (CurrencyPrefix + g)[|CurrencyPrefix|..] == g;
    CurrencyPrefix + g
  }

  /** The mileage grouped in thousands with its unit, as in "15.000 km". */
  function FormatKm(km: nat): (s: string)
    ensures |s| > |KmSuffix| && s[|s| - |KmSuffix|..] == KmSuffix
    ensures s[..|s| - |KmSuffix|] == Grouped(km)
    ensures WellGrouped(s[..|s| - |KmSuffix|])
    ensures ParseDecimal(StripDots(s[..|s| - |KmSuffix|])) == km
  {
    var g := Grouped(km);
    assert (g + KmSuffix)[..|g|] == g;
    g + KmSuffix
  }

  /**
   * The discount against the reference price in whole percent:
   * `Math.round` of 100 * (fipe - price) / fipe, computed exactly
   * (floor of the quotient plus one half), and 0 without a positive reference.
   */
  function Discount(price: int, fipe: int): (d: int)
    ensures price >= fipe ==> d <= 0
    ensures price >= 0 ==> d <= 100
  {
    if fipe > 0 then
      var x := 200 * (fipe - price) + fipe;
      Modular.DivPositive(x, 2 * fipe);
      if price >= 0 then
        assert x < (100 + 1) * (2 * fipe);
        Modular.DivAtMost(x, 2 * fipe, 100);
        x / (2 * fipe)
      else x / (2 * fipe)
    else 0
  }

  /**
   * With a positive reference, the discount is the integer nearest to
   * 100 * (fipe - price) / fipe, halves rounded up: the one integer k with
   * k - 1/2 <= 100 * (fipe - price) / fipe < k + 1/2.
   */
  lemma DiscountIsRounded(price: int, fipe: int, k: int)
    requires fipe > 0
    ensures k == Discount(price, fipe)
        <==> (2 * k - 1) * fipe <= 200 * (fipe - price) < (2 * k + 1) * fipe
  {
    var x := 200 * (fipe - price) + fipe;
    var d := Discount(price, fipe);
    assert x == d * (2 * fipe) + x % (2 * fipe);
    assert (2 * d - 1) * fipe <= 200 * (fipe - price) < (2 * d + 1) * fipe;
    if (2 * k - 1) * fipe <= 200 * (fipe - price) < (2 * k + 1) * fipe {
      assert (2 * k - 1) * fipe < (2 * d + 1) * fipe && (2 * d - 1) * fipe < (2 * k + 1) * fipe;
      SlotsOrdered(2 * k - 1, 2 * d + 1, fipe);
      SlotsOrdered(2 * d - 1, 2 * k + 1, fipe);
    }
  }

  /** Multiplying by a positive number keeps a strict order. */
  lemma SlotsOrdered(a: int, b: int, f: int)
    requires f > 0 && a * f < b * f
    ensures a < b
  {
  }

  /** Without a positive reference there is no discount. */
  lemma DiscountWithoutReference(price: int, fipe: int)
    requires fipe <= 0
    ensures Discount(price, fipe) == 0
  {
  }

  /** The text of the badge on the card. */
  function FipeLabel(price: int, fipe: int): (badge: string)
    ensures price >= fipe ==> badge == FallbackLabel
  {
    var d := Discount(price, fipe);
    if d > 0 then DecimalDigits(d) + PercentSuffix else FallbackLabel
  }

  /** A badge that names a percentage, in the form "<digits>% ABAIXO FIPE", the digits without a leading zero. */
  predicate ShowsPercent(badge: string) {
    && |badge| > |PercentSuffix|
    && badge[|badge| - |PercentSuffix|..] == PercentSuffix
    && AllDigits(badge[..|badge| - |PercentSuffix|])
    && badge[0] != '0'
  }

  /** The percentage a badge names. */
  function ShownPercent(badge: string): nat
    requires ShowsPercent(badge)
  {
    ParseDecimal(badge[..|badge| - |PercentSuffix|])
  }

  /**
   * The badge names a percentage exactly when the reference is positive and
   * the price is at least half a percent below it; that percentage is the
   * rounded discount. Otherwise the badge is the fallback text.
   */
  lemma FipeLabelCases(price: int, fipe: int)
    ensures ShowsPercent(FipeLabel(price, fipe)) <==> fipe > 0 && 200 * (fipe - price) >= fipe
    ensures ShowsPercent(FipeLabel(price, fipe)) ==> ShownPercent(FipeLabel(price, fipe)) == Discount(price, fipe) > 0
    ensures !ShowsPercent(FipeLabel(price, fipe)) ==> FipeLabel(price, fipe) == FallbackLabel
  {
    var d := Discount(price, fipe);
    var badge := FipeLabel(price, fipe);
    assert !ShowsPercent(FallbackLabel) by {
      assert FallbackLabel[|FallbackLabel| - |PercentSuffix|] != PercentSuffix[0];
    }
    if fipe > 0 {
      DiscountPositive(price, fipe);
    }
    if d > 0 {
      var digits := DecimalDigits(d);
      assert badge[..|badge| - |PercentSuffix|] == digits;
      assert badge[|badge| - |PercentSuffix|..] == PercentSuffix;
      ParseDecimalDigits(d);
    }
  }

  /** With a positive reference the discount is positive exactly when 200 * (fipe - price) >= fipe. */
  lemma DiscountPositive(price: int, fipe: int)
    requires fipe > 0
    ensures Discount(price, fipe) > 0 <==> 200 * (fipe - price) >= fipe
  {
    Modular.DivPositive(200 * (fipe - price) + fipe, 2 * fipe);
  }

  /** A price at or above the reference, or a missing reference, always gets the fallback badge. */
  lemma NoDiscountFallback(price: int, fipe: int)
    requires fipe <= 0 || price >= fipe
    ensures FipeLabel(price, fipe) == FallbackLabel
  {
    FipeLabelCases(price, fipe);
  }

  /** For a non-negative price, a percentage on the badge lies between 1 and 100. */
  lemma ShownPercentInRange(price: int, fipe: int)
    requires price >= 0
    requires ShowsPercent(FipeLabel(price, fipe))
    ensures 1 <= ShownPercent(FipeLabel(price, fipe)) <= 100
  {
    FipeLabelCases(price, fipe);
    var d := Discount(price, fipe);
    DiscountIsRounded(price, fipe, d);
    assert (2 * d - 1) * fipe <= 200 * fipe;
    SlotsOrdered(2 * d - 1, 201, fipe);
  }

  /** One display record, built from one raw record only. */
  function ToVehicle(car: RawVehicle): (v: Vehicle)
    ensures v.id == car.id && v.name == car.name
    ensures v.transmission == car.transmission && v.fuel == car.fuel
    ensures v.image == car.image && v.description == car.description
    ensures v.sold == Some(car.sold) && v.rawPrice == Some(car.price)
    ensures v.brand == car.brand + BrandSeparator + car.year
    ensures v.price == FormatPrice(car.price)
    ensures v.fipeDifference == FipeLabel(car.price, car.fipe)
    ensures v.km == FormatKm(car.km)
    ensures v.specs == [v.fuel, v.transmission, v.km]
  {
    var kmText := FormatKm(car.km);
    Vehicle(
      id := car.id,
      name := car.name,
      brand := car.brand + BrandSeparator + car.year,
      rawPrice := Some(car.price),
      price := FormatPrice(car.price),
      fipeDifference := FipeLabel(car.price, car.fipe),
      km := kmText,
      transmission := car.transmission,
      fuel := car.fuel,
      image := car.image,
      description := car.description,
      specs := [car.fuel, car.transmission, kmText],
      sold := Some(car.sold))
  }

  /** The display catalog: the raw records transformed one by one, in order. */
  function Catalog(raws: seq<RawVehicle>): (vs: seq<Vehicle>)
    ensures |vs| == |raws|
    ensures forall i :: 0 <= i < |raws| ==> vs[i] == ToVehicle(raws[i])
  {
    if raws == [] then [] else [ToVehicle(raws[0])] + Catalog(raws[1..])
  }

  const NivusImage: string := "https://images.unsplash.com/photo-1541899481282-d53bffe3c35d?q=80&w=1000&auto=format&fit=crop"
  const ToroImage: string := "https://images.unsplash.com/photo-1533473359331-0135ef1b58bf?auto=format&fit=crop&q=80&w=1000"
  const BmwImage: string := "https://images.unsplash.com/photo-1555215695-3004980adade?q=80&w=1000&auto=format&fit=crop"
  const StockDescription: string := "Oportunidade única para quem busca conforto e liquidez."

  /** The stock as entered. */
  const RawVehicles: seq<RawVehicle> := [
    RawVehicle("1", "Onix Sedan Pluz 1.0 Turbo Premier", "Chevrolet", "2023/2024", 76500, 96753, 8180,
      "Automático", "1.0 Flex", "https://imgur.com/qPsDfQ0.png", StockDescription, false),
    RawVehicle("2", "Volkswagem Polo Track 1.0", "Volkswagem", "2024/2025", 64000, 76362, 59000,
      "Manual", "1.0 Flex", "https://imgur.com/putmN9D.png", StockDescription, false),
    RawVehicle("3", "Fiat/Mobi Like 1.0", "Fiat", "2021", 37700, 46727, 89344,
      "Manual", "1.0 Flex", "https://imgur.com/SLrwZXN.png", StockDescription, false),
    RawVehicle("4", "VW Nivus Highline", "Volkswagen", "2022", 108000, 126000, 35000,
      "Automático", "200 TSI", NivusImage,
      "Design coupé esportivo. Tecnologia ACC e VW Play. Veículo de procedência garantida, sem sinistro.", false),
    RawVehicle("5", "Fiat Toro Volcano", "Fiat", "2023", 155000, 189000, 28000,
      "Automático", "Diesel 4x4", ToroImage,
      "Picape robusta para trabalho e lazer. Tração integral, caçamba intacta. Preço imbatível para revenda.", false),
    RawVehicle("6", "BMW 320i M Sport", "BMW", "2022", 289000, 315000, 12000,
      "Automático", "2.0 Turbo", BmwImage,
      "O puro prazer de dirigir. Sedan premium em estado impecável. Pacote M Sport completo.", false)
  ]

  /** The catalog the site shows. */
  function Vehicles(): (vs: seq<Vehicle>)
    ensures |vs| == |RawVehicles|
  {
    Catalog(RawVehicles)
  }

  /** 76500 against a reference of 96753 is 20.93% below it, shown as 21%. */
  lemma FirstVehicleBadge()
    ensures FipeLabel(76500, 96753) == "21% ABAIXO FIPE"
  {
    assert DecimalDigits(2) == "2";
    assert DecimalDigits(21) == "21";
  }

  lemma FirstVehicleKm()
    ensures FormatKm(8180) == "8.180 km"
  {
    assert Grouped(8180) == "8.180" by {
      assert DecimalDigits(8180) == "8180";
      assert GroupDigits("8180") == "8.180";
    }
  }

  lemma FirstVehiclePrice()
    ensures FormatPrice(76500) == CurrencyPrefix + "76.500"
  {
    assert DecimalDigits(76500) == "76500";
    assert GroupDigits("76500") == "76.500";
  }

  /** The display record of the first vehicle of the stock. */
  lemma FirstVehicleDisplay()
    ensures ToVehicle(RawVehicles[0]).fipeDifference == "21% ABAIXO FIPE"
    ensures ToVehicle(RawVehicles[0]).km == "8.180 km"
    ensures ToVehicle(RawVehicles[0]).price == CurrencyPrefix + "76.500"
    ensures ToVehicle(RawVehicles[0]).specs == ["1.0 Flex", "Automático", "8.180 km"]
  {
    var car := RawVehicles[0];
    assert car.price == 76500 && car.fipe == 96753 && car.km == 8180;
    FirstVehicleBadge();
    FirstVehicleKm();
    FirstVehiclePrice();
  }

  /** No vehicle of the stock is marked sold. */
  lemma StockUnsold()
    ensures forall i :: 0 <= i < |RawVehicles| ==> !RawVehicles[i].sold
  {
  }

  /** Every vehicle of the stock has a distinct id. */
  lemma StockIdsDistinct()
    ensures forall i, j :: 0 <= i < j < |RawVehicles| ==> RawVehicles[i].id != RawVehicles[j].id
  {
  }

}
